/** routers/trackRouter.ts: tracks of a conference and the articles scheduled
    in a track. Reads are public; creating, updating and deleting a track and
    adding an article to it are for admins. */
module TrackRouter {
  import opened Tables
  import opened Schema
  import Text

  /** A track together with the articles whose `trackId` is its id (`with: { articles: true }`). */
  datatype TrackWithArticles = TrackWithArticles(track: Track, articles: seq<Article>)

  /** The reply of the schedule handler: a JavaScript object whose keys are
      dates, listed in the order they were first added, each mapped to its articles. */
  datatype Schedule = Schedule(dates: seq<string>, byDate: map<string, seq<Article>>)

  function ArticlesOfTrack(articles: seq<Article>, trackId: int): (r: seq<Article>)
    ensures forall a :: a in r <==> a in articles && a.trackId == trackId
  {
    Filter(articles, (a: Article) => a.trackId == trackId)
  }

  /** GET /: the tracks of the conference in the path, and only those. */
  function ListTracks(db: Db, conferenceId: int): (r: Reply<seq<Track>>)
    reads db
    ensures r.Ok? && r.status == 200
    ensures forall t :: t in r.value <==> t in db.tracks && t.conferenceId == conferenceId
  {
    Ok(200, Filter(db.tracks, (t: Track) => t.conferenceId == conferenceId))
  }

  /** The row POST / inserts: a fresh id, the given fields, the conference of the path. */
  function NewTrack(tracks: seq<Track>, name: string, room: string, description: string, conferenceId: int): (t: Track)
    ensures t.name == name && t.room == room && t.description == description && t.conferenceId == conferenceId
    ensures t.id > 0 && forall u | u in tracks :: u.id < t.id
  {
    Track(FreshKey(tracks, TrackKey), name, room, description, conferenceId)
  }

  /** POST /: an admin adds a track to the conference. */
  method CreateTrack(db: Db, principal: int, conferenceId: int, name: string, room: string, description: string)
    returns (r: Reply<seq<Track>>)
    requires db.Valid()
    modifies db`tracks
    ensures db.Valid()
    ensures !IsAdmin(db, principal) ==> r == Refused(401, AccessDenied) && db.tracks == old(db.tracks)
    ensures IsAdmin(db, principal) ==>
      var t := NewTrack(old(db.tracks), name, room, description, conferenceId);
      db.tracks == old(db.tracks) + [t] && r == Ok(200, [t])
  {
    if !IsAdmin(db, principal) {
      return Refused(401, AccessDenied);
    }
    var t := NewTrack(db.tracks, name, room, description, conferenceId);
    AppendFresh(db.tracks, TrackKey, t);
    db.tracks := db.tracks + [t];
    r := Ok(200, [t]);
  }

  /** GET /:trackId: the track only if it belongs to the conference in the path,
      with its articles; otherwise an empty 200 reply. */
  function GetTrack(db: Db, conferenceId: int, trackId: int): (r: Reply<Option<TrackWithArticles>>)
    reads db
    ensures r.Ok? && r.status == 200
    ensures r.value.Some? <==> exists t | t in db.tracks :: t.id == trackId && t.conferenceId == conferenceId
    ensures r.value.Some? ==>
      && r.value.value.track in db.tracks
      && r.value.value.track.id == trackId && r.value.value.track.conferenceId == conferenceId
      && forall a :: a in r.value.value.articles <==> a in db.articles && a.trackId == trackId
  {
    match FindFirst(db.tracks, (t: Track) => t.id == trackId && t.conferenceId == conferenceId)
    case None => Ok(200, None)
    case Some(t) => Ok(200, Some(TrackWithArticles(t, ArticlesOfTrack(db.articles, t.id))))
  }

  /** `update(track).set({ name, room, description })` on the track with both ids. */
  function UpdateTrackRows(tracks: seq<Track>, conferenceId: int, trackId: int, name: string, room: string, description: string)
    : (r: seq<Track>)
    ensures |r| == |tracks|
    ensures forall i | 0 <= i < |tracks| :: r[i].id == tracks[i].id && r[i].conferenceId == tracks[i].conferenceId
    ensures forall i | 0 <= i < |tracks| && tracks[i].id == trackId && tracks[i].conferenceId == conferenceId ::
      r[i].name == name && r[i].room == room && r[i].description == description
    ensures forall i | 0 <= i < |tracks| && !(tracks[i].id == trackId && tracks[i].conferenceId == conferenceId) ::
      r[i] == tracks[i]
  {
    UpdateWhere(tracks,
      (t: Track) => t.id == trackId && t.conferenceId == conferenceId,
      (t: Track) => t.(name := name, room := room, description := description))
  }

  /** PATCH /:trackId: an admin renames, re-rooms and re-describes the track
      matching both ids, and gets back the updated rows. */
  method UpdateTrack(db: Db, principal: int, conferenceId: int, trackId: int, name: string, room: string, description: string)
    returns (r: Reply<seq<Track>>)
    requires db.Valid()
    modifies db`tracks
    ensures db.Valid()
    ensures !IsAdmin(db, principal) ==> r == Refused(401, AccessDenied) && db.tracks == old(db.tracks)
    ensures IsAdmin(db, principal) ==>
      && db.tracks == UpdateTrackRows(old(db.tracks), conferenceId, trackId, name, room, description)
      && r.Ok? && r.status == 200
      && forall t :: t in r.value <==> t in db.tracks && t.id == trackId && t.conferenceId == conferenceId
  {
    if !IsAdmin(db, principal) {
      return Refused(401, AccessDenied);
    }
    UpdateUnique(db.tracks, TrackKey,
      (t: Track) => t.id == trackId && t.conferenceId == conferenceId,
      (t: Track) => t.(name := name, room := room, description := description));
    db.tracks := UpdateTrackRows(db.tracks, conferenceId, trackId, name, room, description);
    r := Ok(200, Filter(db.tracks, (t: Track) => t.id == trackId && t.conferenceId == conferenceId));
  }

  /** `delete(track).where(eq(track.id, trackId))`: the conference id is not part of the match. */
  function RemoveTrack(tracks: seq<Track>, trackId: int): (r: seq<Track>)
    ensures forall t :: t in r <==> t in tracks && t.id != trackId
  {
    Filter(tracks, (t: Track) => t.id != trackId)
  }

  /** DELETE /:trackId: an admin deletes the track with that id, in whichever
      conference it is; the handler then never responds. The articles of the
      track stay. */
  method DeleteTrack(db: Db, principal: int, trackId: int) returns (r: Reply<()>)
    requires db.Valid()
    modifies db`tracks
    ensures db.Valid()
    ensures !IsAdmin(db, principal) ==> r == Refused(401, AccessDenied) && db.tracks == old(db.tracks)
    ensures IsAdmin(db, principal) ==> r == Silent && db.tracks == RemoveTrack(old(db.tracks), trackId)
  {
    if !IsAdmin(db, principal) {
      return Refused(401, AccessDenied);
    }
    FilterUnique(db.tracks, TrackKey, (t: Track) => t.id != trackId);
    db.tracks := RemoveTrack(db.tracks, trackId);
    r := Silent;
  }

  /** `article.startDate.split(" ")[0]`: the date an article is grouped under. */
  function DateKey(a: Article): (d: string)
    ensures d <= a.startDate && ' ' !in d
    ensures |d| < |a.startDate| ==> a.startDate[|d|] == ' '
  {
    Text.FirstField(a.startDate, ' ')
  }

  /** A "date time" start is grouped under its date part. */
  lemma DateKeyOfTimestamp(a: Article, date: string, time: string)
    requires ' ' !in date && a.startDate == date + [' '] + time
    ensures DateKey(a) == date
  {
    assert a.startDate[|date|] == ' ';
    assert forall i | 0 <= i < |date| :: a.startDate[i] == date[i];
  }

  /** A start with no space (an ISO timestamp such as `2025-03-01T09:00:00Z`)
      is its own group key: the split does not cut at `T`. */
  lemma DateKeyWithoutSpace(a: Article)
    requires ' ' !in a.startDate
    ensures DateKey(a) == a.startDate
  {
  }

  /** The distinct dates of `s`, in the order each first appears. */
  function DateKeys(s: seq<Article>): (r: seq<string>)
    ensures forall a | a in s :: DateKey(a) in r
  {
    if s == [] then []
    else
      var init, last := s[..|s| - 1], s[|s| - 1];
      assert s == init + [last];
      var keys := DateKeys(init);
      if DateKey(last) in keys then keys else keys + [DateKey(last)]
  }

  /** The articles of `s` dated `date`, in the order of `s`. */
  function OnDate(s: seq<Article>, date: string): (r: seq<Article>)
    ensures forall a :: a in r <==> a in s && DateKey(a) == date
  {
    if s == [] then []
    else
      var init, last := s[..|s| - 1], s[|s| - 1];
      assert s == init + [last];
      OnDate(init, date) + if DateKey(last) == date then [last] else []
  }

  /** The `reduce` of the schedule handler: walk the articles, open a group
      the first time a date is met, and push each article onto its date's group. */
  method GroupByDate(articles: seq<Article>) returns (dates: seq<string>, byDate: map<string, seq<Article>>)
    ensures dates == DateKeys(articles)
    ensures forall d :: d in byDate <==> d in dates
    ensures forall d | d in byDate :: byDate[d] == OnDate(articles, d)
  {
    dates, byDate := [], map[];
    var i := 0;
    while i < |articles|
      invariant 0 <= i <= |articles|
      invariant dates == DateKeys(articles[..i]) && byDate == Groups(articles[..i])
    {
      var article := articles[i];
      assert articles[..i + 1] == articles[..i] + [article];
      assert (articles[..i] + [article])[..i] == articles[..i];
      GroupsKeys(articles[..i]);
      var date := DateKey(article);
      if date !in byDate {
        byDate := byDate[date := []];
        dates := dates + [date];
      }
      byDate := byDate[date := byDate[date] + [article]];
      i := i + 1;
    }
    assert articles[..i] == articles;
    GroupsKeys(articles);
    GroupsOnDate(articles);
  }

  /** The groups of `s` as a map from date to articles, built the way the
      `reduce` builds them. */
  function Groups(s: seq<Article>): map<string, seq<Article>> {
    if s == [] then map[]
    else
      var groups, last := Groups(s[..|s| - 1]), s[|s| - 1];
      var date := DateKey(last);
      groups[date := (if date in groups then groups[date] else []) + [last]]
  }

  lemma {:induction false} GroupsKeys(s: seq<Article>)
    ensures forall d :: d in Groups(s) <==> d in DateKeys(s)
  {
    if s != [] {
      var init := s[..|s| - 1];
      assert s == init + [s[|s| - 1]];
      GroupsKeys(init);
      DateKeysSnoc(init, s[|s| - 1]);
    }
  }

  /** Each group is the articles of its date, in track order. */
  lemma {:induction false} GroupsOnDate(s: seq<Article>)
    ensures forall d | d in Groups(s) :: Groups(s)[d] == OnDate(s, d)
  {
    if s != [] {
      var init := s[..|s| - 1];
      assert s == init + [s[|s| - 1]];
      GroupsOnDate(init);
      GroupsKeys(init);
      OnDateSnoc(init, s[|s| - 1]);
      forall d | d in Groups(s) ensures Groups(s)[d] == OnDate(s, d) {
        if d !in Groups(init) {
          NoDateNoGroup(init, d);
        }
      }
    }
  }

  /** Every date key is the date of some article. */
  lemma {:induction false} DateKeysFromArticles(s: seq<Article>)
    ensures forall k | k in DateKeys(s) :: exists a | a in s :: DateKey(a) == k
  {
    if s != [] {
      var init, last := s[..|s| - 1], s[|s| - 1];
      assert s == init + [last];
      DateKeysFromArticles(init);
      DateKeysSnoc(init, last);
      forall k | k in DateKeys(s) ensures exists a | a in s :: DateKey(a) == k {
        if k in DateKeys(init) {
          var a :| a in init && DateKey(a) == k;
          assert a in s;
        } else {
          assert DateKey(last) == k;
        }
      }
    }
  }

  /** No date key is listed twice. */
  lemma {:induction false} DateKeysDistinct(s: seq<Article>)
    ensures forall i, j | 0 <= i < j < |DateKeys(s)| :: DateKeys(s)[i] != DateKeys(s)[j]
  {
    if s != [] {
      var init, last := s[..|s| - 1], s[|s| - 1];
      assert s == init + [last];
      DateKeysDistinct(init);
      DateKeysSnoc(init, last);
    }
  }

  /** A date no article has opens no group. */
  lemma NoDateNoGroup(s: seq<Article>, date: string)
    requires date !in DateKeys(s)
    ensures OnDate(s, date) == []
  {
  }

  lemma DateKeysSnoc(s: seq<Article>, a: Article)
    ensures DateKeys(s + [a]) == if DateKey(a) in DateKeys(s) then DateKeys(s) else DateKeys(s) + [DateKey(a)]
  {
    assert (s + [a])[..|s|] == s;
  }

  lemma OnDateSnoc(s: seq<Article>, a: Article)
    ensures forall d :: OnDate(s + [a], d) == OnDate(s, d) + if DateKey(a) == d then [a] else []
  {
    assert (s + [a])[..|s|] == s;
  }

  /** Every article of the track lands in the group of its own date and in no
      other, and no group is empty. */
  lemma ScheduleGroupsArticles(s: seq<Article>)
    ensures forall a | a in s :: DateKey(a) in DateKeys(s) && a in OnDate(s, DateKey(a))
    ensures forall a, d | a in s && d != DateKey(a) :: a !in OnDate(s, d)
    ensures forall d | d in DateKeys(s) :: OnDate(s, d) != []
  {
    DateKeysFromArticles(s);
    forall d | d in DateKeys(s) ensures OnDate(s, d) != [] {
      var a :| a in s && DateKey(a) == d;
      assert a in OnDate(s, d);
    }
  }

  /** The groups, taken in key order and put end to end. */
  function Flatten(s: seq<Article>, dates: seq<string>): seq<Article> {
    if dates == [] then [] else Flatten(s, dates[..|dates| - 1]) + OnDate(s, dates[|dates| - 1])
  }

  /** The groups of the schedule are a partition of the articles: put end to
      end they hold every article exactly as often as the track does. */
  lemma {:induction false} SchedulePartitions(s: seq<Article>)
    ensures multiset(Flatten(s, DateKeys(s))) == multiset(s)
  {
    if s != [] {
      var init, last := s[..|s| - 1], s[|s| - 1];
      assert s == init + [last];
      var keys := DateKeys(init);
      SchedulePartitions(init);
      DateKeysDistinct(init);
      FlattenSnoc(init, last, keys);
      DateKeysSnoc(init, last);
      if DateKey(last) !in keys {
        assert (keys + [DateKey(last)])[..|keys|] == keys;
        NoDateNoGroup(init, DateKey(last));
        OnDateSnoc(init, last);
      }
    }
  }

  lemma {:induction false} FlattenSnoc(s: seq<Article>, a: Article, dates: seq<string>)
    requires forall i, j | 0 <= i < j < |dates| :: dates[i] != dates[j]
    ensures multiset(Flatten(s + [a], dates))
         == multiset(Flatten(s, dates)) + multiset(if DateKey(a) in dates then [a] else [])
    decreases |dates|
  {
    if dates != [] {
      var init, last := dates[..|dates| - 1], dates[|dates| - 1];
      assert dates == init + [last];
      FlattenSnoc(s, a, init);
      OnDateSnoc(s, a);
      assert DateKey(a) in dates <==> DateKey(a) in init || DateKey(a) == last;
      assert DateKey(a) in init ==> DateKey(a) != last;
    }
  }

  /** GET /:trackId/schedule: the articles of the track in that conference, grouped by date. */
  method GetSchedule(db: Db, conferenceId: int, trackId: int) returns (r: Reply<Schedule>)
    ensures r.Ok? && r.status == 200
    ensures
      var ofTrack := Filter(db.articles, (a: Article) => a.conferenceId == conferenceId && a.trackId == trackId);
      && r.value.dates == DateKeys(ofTrack)
      && (forall d :: d in r.value.byDate <==> d in r.value.dates)
      && forall d | d in r.value.byDate :: r.value.byDate[d] == OnDate(ofTrack, d)
  {
    var ofTrack := Filter(db.articles, (a: Article) => a.conferenceId == conferenceId && a.trackId == trackId);
    var dates, byDate := GroupByDate(ofTrack);
    r := Ok(200, Schedule(dates, byDate));
  }

  /** GET /:trackId/articles: the articles of that conference and that track. */
  function ListTrackArticles(db: Db, conferenceId: int, trackId: int): (r: Reply<seq<Article>>)
    reads db
    ensures r.Ok? && r.status == 200
    ensures forall a :: a in r.value <==> a in db.articles && a.conferenceId == conferenceId && a.trackId == trackId
  {
    Ok(200, Filter(db.articles, (a: Article) => a.conferenceId == conferenceId && a.trackId == trackId))
  }

  /** The row POST /:trackId/articles inserts: a fresh id, the given fields,
      and the conference and track of the path. */
  function NewArticle(articles: seq<Article>, title: string, authors: string, abstractText: string,
                      startDate: string, endDate: string, conferenceId: int, trackId: int): (a: Article)
    ensures a.title == title && a.authors == authors && a.abstractText == abstractText
    ensures a.startDate == startDate && a.endDate == endDate
    ensures a.conferenceId == conferenceId && a.trackId == trackId
    ensures a.id > 0 && forall b | b in articles :: b.id < a.id
  {
    Article(FreshKey(articles, ArticleKey), title, authors, abstractText, startDate, endDate, conferenceId, trackId)
  }

  /** POST /:trackId/articles: an admin adds an article to the track. */
  method CreateArticle(db: Db, principal: int, conferenceId: int, trackId: int, title: string, authors: string,
                       abstractText: string, startDate: string, endDate: string) returns (r: Reply<seq<Article>>)
    requires db.Valid()
    modifies db`articles
    ensures db.Valid()
    ensures !IsAdmin(db, principal) ==> r == Refused(401, AccessDenied) && db.articles == old(db.articles)
    ensures IsAdmin(db, principal) ==>
      var a := NewArticle(old(db.articles), title, authors, abstractText, startDate, endDate, conferenceId, trackId);
      db.articles == old(db.articles) + [a] && r == Ok(200, [a])
  {
    if !IsAdmin(db, principal) {
      return Refused(401, AccessDenied);
    }
    var a := NewArticle(db.articles, title, authors, abstractText, startDate, endDate, conferenceId, trackId);
    AppendFresh(db.articles, ArticleKey, a);
    db.articles := db.articles + [a];
    r := Ok(200, [a]);
  }
}
