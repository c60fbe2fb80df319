/** routers/conferenceRouter.ts: the conference list (id order, paged), a
    conference with its tracks and their articles, its coordinates, and the
    admin-only create, update and delete. */
module ConferenceRouter {
  import opened Tables
  import opened Schema
  import opened Utils
  import TrackRouter

  /** A listed conference with its tracks (`with: { tracks: true }`). */
  datatype ConferenceWithTracks = ConferenceWithTracks(conference: Conference, tracks: seq<Track>)

  /** A conference with its tracks, each with its articles. */
  datatype ConferenceDetail = ConferenceDetail(conference: Conference, tracks: seq<TrackRouter.TrackWithArticles>)

  /** The `/location` reply: only the two coordinate columns. */
  datatype Location = Location(latitude: Coordinate, longitude: Coordinate)

  function TracksOf(tracks: seq<Track>, conferenceId: int): (r: seq<Track>)
    ensures forall t :: t in r <==> t in tracks && t.conferenceId == conferenceId
  {
    Filter(tracks, (t: Track) => t.conferenceId == conferenceId)
  }

  /** Each conference of `cs`, in order, with its tracks. */
  function WithTracks(cs: seq<Conference>, tracks: seq<Track>): (r: seq<ConferenceWithTracks>)
    ensures |r| == |cs|
    ensures forall i | 0 <= i < |cs| :: r[i].conference == cs[i]
    ensures forall i | 0 <= i < |cs| :: forall t :: t in r[i].tracks <==> t in tracks && t.conferenceId == cs[i].id
  {
    seq(|cs|, i requires 0 <= i < |cs| => ConferenceWithTracks(cs[i], TracksOf(tracks, cs[i].id)))
  }

  /** GET /api/v1/conferences: the conferences in ascending id order, from
      `offset` on, at most `pageSize` of them, each with its tracks. A negative
      offset (page 0) is refused by the database; the handler does not catch
      that and sends nothing. */
  function ListConferences(db: Db, page: Option<nat>, pageSize: Option<nat>): (r: Reply<seq<ConferenceWithTracks>>)
    reads db
    ensures ExtractPaginationParameters(page, pageSize).offset < 0 <==> r == Silent
    ensures ExtractPaginationParameters(page, pageSize).offset >= 0 <==> r.Ok?
    ensures r.Ok? ==>
      var p := ExtractPaginationParameters(page, pageSize);
      && r.status == 200
      && |r.value| <= p.pageSize
      && (p.offset >= |db.conferences| ==> r.value == [])
  {
    var p := ExtractPaginationParameters(page, pageSize);
    if p.offset < 0 then Silent
    else Ok(200, WithTracks(SortedPage(db.conferences, ConferenceKey, p.offset, p.pageSize), db.tracks))
  }

  /** A listing that is sent is the id-ordered page of conferences with their tracks. */
  lemma ListingIsPage(db: Db, page: Option<nat>, pageSize: Option<nat>)
    requires ListConferences(db, page, pageSize).Ok?
    ensures
      var p := ExtractPaginationParameters(page, pageSize);
      && p.offset >= 0
      && ListConferences(db, page, pageSize).value
         == WithTracks(SortedPage(db.conferences, ConferenceKey, p.offset, p.pageSize), db.tracks)
  {
  }

  /** Every listed conference is in the table and carries exactly its own tracks. */
  lemma ListedRows(db: Db, page: Option<nat>, pageSize: Option<nat>)
    requires ListConferences(db, page, pageSize).Ok?
    ensures forall i | 0 <= i < |ListConferences(db, page, pageSize).value| ::
      var row := ListConferences(db, page, pageSize).value[i];
      && row.conference in db.conferences
      && forall t :: t in row.tracks <==> t in db.tracks && t.conferenceId == row.conference.id
  {
    ListingIsPage(db, page, pageSize);
    var p := ExtractPaginationParameters(page, pageSize);
    var rows := SortedPage(db.conferences, ConferenceKey, p.offset, p.pageSize);
    forall i | 0 <= i < |rows| ensures rows[i] in db.conferences {
      assert rows[i] in rows;
    }
  }

  /** The listing is in strictly ascending id order. */
  lemma ListingAscends(db: Db, page: Option<nat>, pageSize: Option<nat>)
    requires UniqueKeys(db.conferences, ConferenceKey)
    requires ListConferences(db, page, pageSize).Ok?
    ensures forall i, j | 0 <= i < j < |ListConferences(db, page, pageSize).value| ::
      ListConferences(db, page, pageSize).value[i].conference.id < ListConferences(db, page, pageSize).value[j].conference.id
  {
    ListingIsPage(db, page, pageSize);
    var p := ExtractPaginationParameters(page, pageSize);
    SortedPageAscends(db.conferences, ConferenceKey, p.offset, p.pageSize);
  }

  /** Pages `n` and `n + 1` of the same size, one after the other, are the
      `2 * pageSize` conferences starting where page `n` starts: paging skips
      and repeats nothing. */
  lemma ConsecutiveListingsTile(db: Db, n: nat, pageSize: nat)
    requires n >= 1
    ensures
      var p := ExtractPaginationParameters(Some(n), Some(pageSize));
      && ListConferences(db, Some(n), Some(pageSize)).Ok?
      && ListConferences(db, Some(n + 1), Some(pageSize)).Ok?
      && ListConferences(db, Some(n), Some(pageSize)).value + ListConferences(db, Some(n + 1), Some(pageSize)).value
         == WithTracks(SortedPage(db.conferences, ConferenceKey, p.offset, 2 * pageSize), db.tracks)
  {
    ConsecutivePagesTile(n, pageSize);
    ListingIsPage(db, Some(n), Some(pageSize));
    ListingIsPage(db, Some(n + 1), Some(pageSize));
    var o: nat := ExtractPaginationParameters(Some(n), Some(pageSize)).offset;
    SortedPagesTile(db.conferences, ConferenceKey, o, pageSize);
    WithTracksConcat(SortedPage(db.conferences, ConferenceKey, o, pageSize),
                     SortedPage(db.conferences, ConferenceKey, o + pageSize, pageSize), db.tracks);
  }

  lemma WithTracksConcat(a: seq<Conference>, b: seq<Conference>, tracks: seq<Track>)
    ensures WithTracks(a, tracks) + WithTracks(b, tracks) == WithTracks(a + b, tracks)
  {
    var l, r := WithTracks(a, tracks) + WithTracks(b, tracks), WithTracks(a + b, tracks);
    forall i | 0 <= i < |l| ensures l[i] == r[i] {
      if i < |a| {
        assert (a + b)[i] == a[i];
      } else {
        assert (a + b)[i] == b[i - |a|];
      }
    }
  }

  /** The row POST inserts: a fresh id, the submitted fields, and the city the
      coordinates were looked up to (absent when the lookup had none). */
  function NewConference(conferences: seq<Conference>, name: string, latitude: Coordinate, longitude: Coordinate,
                         startDate: string, endDate: string, imageUrl: string, description: string,
                         city: Option<string>): (c: Conference)
    ensures c.name == name && c.latitude == latitude && c.longitude == longitude
    ensures c.startDate == startDate && c.endDate == endDate
    ensures c.imageUrl == imageUrl && c.description == description && c.city == city
    ensures c.id > 0 && forall d | d in conferences :: d.id < c.id
  {
    Conference(FreshKey(conferences, ConferenceKey), name, latitude, longitude, startDate, endDate, imageUrl,
               description, city)
  }

  /** POST /api/v1/conferences: an admin adds a conference. The city comes from
      a reverse-geocoding lookup of the coordinates, taken here as an input. */
  method CreateConference(db: Db, principal: int, name: string, latitude: Coordinate, longitude: Coordinate,
                          startDate: string, endDate: string, imageUrl: string, description: string,
                          city: Option<string>) returns (r: Reply<seq<Conference>>)
    requires db.Valid()
    modifies db`conferences
    ensures db.Valid()
    ensures !IsAdmin(db, principal) ==> r == Refused(401, AccessDenied) && db.conferences == old(db.conferences)
    ensures IsAdmin(db, principal) ==>
      var c := NewConference(old(db.conferences), name, latitude, longitude, startDate, endDate, imageUrl,
                             description, city);
      db.conferences == old(db.conferences) + [c] && r == Ok(200, [c])
  {
    if !IsAdmin(db, principal) {
      return Refused(401, AccessDenied);
    }
    var c := NewConference(db.conferences, name, latitude, longitude, startDate, endDate, imageUrl, description, city);
    AppendFresh(db.conferences, ConferenceKey, c);
    db.conferences := db.conferences + [c];
    r := Ok(200, [c]);
  }

  /** `update(conference).set({ seven fields })` on the conference with that id;
      the city and the id stay. */
  function UpdateConferenceRows(conferences: seq<Conference>, conferenceId: int, name: string,
                                latitude: Coordinate, longitude: Coordinate, startDate: string, endDate: string,
                                imageUrl: string, description: string): (r: seq<Conference>)
    ensures |r| == |conferences|
    ensures forall i | 0 <= i < |conferences| && conferences[i].id == conferenceId ::
      r[i] == Conference(conferenceId, name, latitude, longitude, startDate, endDate, imageUrl, description,
                         conferences[i].city)
    ensures forall i | 0 <= i < |conferences| && conferences[i].id != conferenceId :: r[i] == conferences[i]
  {
    UpdateWhere(conferences,
      (c: Conference) => c.id == conferenceId,
      (c: Conference) => c.(name := name, latitude := latitude, longitude := longitude, startDate := startDate,
                            endDate := endDate, imageUrl := imageUrl, description := description))
  }

  /** Updating an id no conference has changes nothing. */
  lemma UpdateUnknownConference(conferences: seq<Conference>, conferenceId: int, name: string,
                                latitude: Coordinate, longitude: Coordinate, startDate: string, endDate: string,
                                imageUrl: string, description: string)
    requires forall c | c in conferences :: c.id != conferenceId
    ensures UpdateConferenceRows(conferences, conferenceId, name, latitude, longitude, startDate, endDate, imageUrl,
                                 description) == conferences
  {
    var r := UpdateConferenceRows(conferences, conferenceId, name, latitude, longitude, startDate, endDate, imageUrl,
                                  description);
    forall i | 0 <= i < |conferences| ensures r[i] == conferences[i] {
      assert conferences[i] in conferences;
    }
  }

  /** PATCH /api/v1/conferences/:id: an admin overwrites the seven submitted
      fields and gets back the updated rows. */
  method UpdateConference(db: Db, principal: int, conferenceId: int, name: string, latitude: Coordinate,
                          longitude: Coordinate, startDate: string, endDate: string, imageUrl: string,
                          description: string) returns (r: Reply<seq<Conference>>)
    requires db.Valid()
    modifies db`conferences
    ensures db.Valid()
    ensures !IsAdmin(db, principal) ==> r == Refused(401, AccessDenied) && db.conferences == old(db.conferences)
    ensures IsAdmin(db, principal) ==>
      && db.conferences == UpdateConferenceRows(old(db.conferences), conferenceId, name, latitude, longitude,
                                                startDate, endDate, imageUrl, description)
      && r.Ok? && r.status == 200
      && forall c :: c in r.value <==> c in db.conferences && c.id == conferenceId
  {
    if !IsAdmin(db, principal) {
      return Refused(401, AccessDenied);
    }
    UpdateUnique(db.conferences, ConferenceKey,
      (c: Conference) => c.id == conferenceId,
      (c: Conference) => c.(name := name, latitude := latitude, longitude := longitude, startDate := startDate,
                            endDate := endDate, imageUrl := imageUrl, description := description));
    db.conferences := UpdateConferenceRows(db.conferences, conferenceId, name, latitude, longitude, startDate,
                                           endDate, imageUrl, description);
    r := Ok(200, Filter(db.conferences, (c: Conference) => c.id == conferenceId));
  }

  /** `delete(conference).where(eq(conference.id, id))`. */
  function RemoveConference(conferences: seq<Conference>, conferenceId: int): (r: seq<Conference>)
    ensures forall c :: c in r <==> c in conferences && c.id != conferenceId
  {
    Filter(conferences, (c: Conference) => c.id != conferenceId)
  }

  /** DELETE /api/v1/conferences/:id: an admin deletes the conference; the
      handler then never responds. Only the conference table changes: its
      tracks, articles and requests stay. */
  method DeleteConference(db: Db, principal: int, conferenceId: int) returns (r: Reply<()>)
    requires db.Valid()
    modifies db`conferences
    ensures db.Valid()
    ensures !IsAdmin(db, principal) ==> r == Refused(401, AccessDenied) && db.conferences == old(db.conferences)
    ensures IsAdmin(db, principal) ==>
      r == Silent && db.conferences == RemoveConference(old(db.conferences), conferenceId)
  {
    if !IsAdmin(db, principal) {
      return Refused(401, AccessDenied);
    }
    FilterUnique(db.conferences, ConferenceKey, (c: Conference) => c.id != conferenceId);
    db.conferences := RemoveConference(db.conferences, conferenceId);
    r := Silent;
  }

  /** Each track of `ts`, in order, with its articles. */
  function TracksWithArticles(ts: seq<Track>, articles: seq<Article>): (r: seq<TrackRouter.TrackWithArticles>)
    ensures |r| == |ts|
    ensures forall i | 0 <= i < |ts| :: r[i].track == ts[i]
    ensures forall i | 0 <= i < |ts| :: forall a :: a in r[i].articles <==> a in articles && a.trackId == ts[i].id
  {
    seq(|ts|, i requires 0 <= i < |ts| =>
      TrackRouter.TrackWithArticles(ts[i], TrackRouter.ArticlesOfTrack(articles, ts[i].id)))
  }

  /** GET /api/v1/conferences/:id: the conference with every one of its tracks,
      each with its articles; an empty 200 reply when the id is unknown. */
  function GetConference(db: Db, conferenceId: int): (r: Reply<Option<ConferenceDetail>>)
    reads db
    ensures r.Ok? && r.status == 200
    ensures r.value.Some? <==> exists c | c in db.conferences :: c.id == conferenceId
    ensures r.value.Some? ==>
      var d := r.value.value;
      && d.conference in db.conferences && d.conference.id == conferenceId
      && (forall t :: t in db.tracks && t.conferenceId == conferenceId <==>
            exists i | 0 <= i < |d.tracks| :: d.tracks[i].track == t)
      && forall i | 0 <= i < |d.tracks| :: forall a ::
            a in d.tracks[i].articles <==> a in db.articles && a.trackId == d.tracks[i].track.id
  {
    match FindFirst(db.conferences, (c: Conference) => c.id == conferenceId)
    case None => Ok(200, None)
    case Some(c) =>
      var ts := TracksOf(db.tracks, c.id);
      var r := TracksWithArticles(ts, db.articles);
      assert forall t :: t in ts <==> exists i | 0 <= i < |r| :: r[i].track == t;
      Ok(200, Some(ConferenceDetail(c, r)))
  }

  /** GET /api/v1/conferences/:id/location: the coordinates of the conference,
      or an empty 200 reply. */
  function GetLocation(db: Db, conferenceId: int): (r: Reply<Option<Location>>)
    reads db
    ensures r.Ok? && r.status == 200
    ensures r.value.Some? <==> exists c | c in db.conferences :: c.id == conferenceId
    ensures r.value.Some? ==> exists c | c in db.conferences && c.id == conferenceId ::
      r.value.value == Location(c.latitude, c.longitude)
  {
    match FindFirst(db.conferences, (c: Conference) => c.id == conferenceId)
    case None => Ok(200, None)
    case Some(c) => Ok(200, Some(Location(c.latitude, c.longitude)))
  }
}
