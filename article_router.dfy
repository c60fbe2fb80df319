/** routers/articleRouter.ts: the articles of a conference, searchable by
    title or authors and optionally paged; reads are public, updating and
    deleting an article are for admins. `page` and `pageSize` arrive already
    parsed (`None` when the query parameter is absent or empty). */
module ArticleRouter {
  import opened Tables
  import opened Schema
  import Text

  /** An article with the track its `trackId` points to (`with: { track: true }`);
      `None` when no such track exists. */
  datatype ArticleWithTrack = ArticleWithTrack(article: Article, track: Option<Track>)

  /** `lower(title) ilike '%term%'` or the same on `authors`: the term occurs
      in the title or in the authors, ignoring case. */
  predicate MatchesSearch(a: Article, term: string) {
    Text.Contains(Text.ToLower(a.title), Text.ToLower(term))
    || Text.Contains(Text.ToLower(a.authors), Text.ToLower(term))
  }

  /** Lower-casing the term first does not change which articles match. */
  lemma SearchIgnoresCase(a: Article, term: string)
    ensures MatchesSearch(a, Text.ToLower(term)) <==> MatchesSearch(a, term)
  {
    Text.ToLowerIdempotent(term);
  }

  /** Whether an article matches depends on neither the case of its title and
      authors nor the case of the term. */
  lemma MatchIgnoresCase(a: Article, b: Article, term: string, other: string)
    requires Text.SameIgnoringCase(a.title, b.title) && Text.SameIgnoringCase(a.authors, b.authors)
    requires Text.SameIgnoringCase(term, other)
    ensures MatchesSearch(a, term) <==> MatchesSearch(b, other)
  {
    Text.SameIgnoringCaseIff(a.title, b.title);
    Text.SameIgnoringCaseIff(a.authors, b.authors);
    Text.SameIgnoringCaseIff(term, other);
  }

  /** The empty term occurs in every title. */
  lemma EmptyTermMatchesAll(a: Article)
    ensures MatchesSearch(a, [])
  {
    assert Text.ToLower([]) == [];
  }

  /** `if (searchTerm)`: an absent or empty term does not filter. */
  function Searching(searchTerm: Option<string>): bool {
    searchTerm.Some? && searchTerm.value != []
  }

  /** `if (page && pageSize)`: paging needs both, and neither may be 0. */
  function Paging(page: Option<nat>, pageSize: Option<nat>): bool {
    page.Some? && pageSize.Some? && page.value != 0 && pageSize.value != 0
  }

  /** `(page - 1) * pageSize`: the row page `page` starts at. */
  function PageStart(page: nat, pageSize: nat): nat
    requires page != 0
  {
    (page - 1) * pageSize
  }

  /** The rows the `where` clause keeps: the conference of the path and, when
      searching, a matching title or authors. */
  predicate Selected(a: Article, conferenceId: int, searchTerm: Option<string>) {
    a.conferenceId == conferenceId && (Searching(searchTerm) ==> MatchesSearch(a, searchTerm.value))
  }

  function SelectedArticles(articles: seq<Article>, conferenceId: int, searchTerm: Option<string>): (r: seq<Article>)
    ensures forall a :: a in r <==> a in articles && Selected(a, conferenceId, searchTerm)
  {
    Filter(articles, (a: Article) => Selected(a, conferenceId, searchTerm))
  }

  /** GET /: without paging, exactly the selected articles; with paging, the
      page-th slice of `pageSize` selected articles in ascending id order. */
  function ListArticles(db: Db, conferenceId: int, page: Option<nat>, pageSize: Option<nat>, searchTerm: Option<string>)
    : (r: Reply<seq<Article>>)
    reads db
    ensures r.Ok? && r.status == 200
    ensures !Paging(page, pageSize) ==>
      forall a :: a in r.value <==> a in db.articles && Selected(a, conferenceId, searchTerm)
    ensures Paging(page, pageSize) ==>
      && |r.value| <= pageSize.value
      && forall a | a in r.value :: a in db.articles && Selected(a, conferenceId, searchTerm)
  {
    var selected := SelectedArticles(db.articles, conferenceId, searchTerm);
    if Paging(page, pageSize) then
      Ok(200, SortedPage(selected, ArticleKey, PageStart(page.value, pageSize.value), pageSize.value))
    else
      Ok(200, selected)
  }

  /** A paged listing is the run of `pageSize` selected articles, in ascending
      id order, that starts at `(page - 1) * pageSize`. */
  lemma PagedListingIsSlice(db: Db, conferenceId: int, page: nat, pageSize: nat, searchTerm: Option<string>)
    requires page != 0 && pageSize != 0
    ensures ListArticles(db, conferenceId, Some(page), Some(pageSize), searchTerm).value
         == Page(SortBy(SelectedArticles(db.articles, conferenceId, searchTerm), ArticleKey), PageStart(page, pageSize), pageSize)
  {
    var selected := SelectedArticles(db.articles, conferenceId, searchTerm);
    var offset := PageStart(page, pageSize);
    assert ListArticles(db, conferenceId, Some(page), Some(pageSize), searchTerm).value
        == SortedPage(selected, ArticleKey, offset, pageSize);
    SortedPageIsPage(selected, ArticleKey, offset, pageSize);
  }

  /** Page `page` followed by page `page + 1` is the double-size run that
      starts where page `page` starts: consecutive pages neither overlap nor
      leave a gap. */
  lemma ConsecutivePagesTile(db: Db, conferenceId: int, page: nat, pageSize: nat, searchTerm: Option<string>)
    requires page != 0 && pageSize != 0
    ensures ListArticles(db, conferenceId, Some(page), Some(pageSize), searchTerm).value
          + ListArticles(db, conferenceId, Some(page + 1), Some(pageSize), searchTerm).value
         == SortedPage(SelectedArticles(db.articles, conferenceId, searchTerm), ArticleKey, PageStart(page, pageSize), 2 * pageSize)
  {
    var selected := SelectedArticles(db.articles, conferenceId, searchTerm);
    assert PageStart(page + 1, pageSize) == PageStart(page, pageSize) + pageSize;
    SortedPagesTile(selected, ArticleKey, PageStart(page, pageSize), pageSize);
  }

  /** With unique ids, no article is on two consecutive pages. */
  lemma ConsecutivePagesDisjoint(db: Db, conferenceId: int, page: nat, pageSize: nat, searchTerm: Option<string>)
    requires UniqueKeys(db.articles, ArticleKey)
    requires page != 0 && pageSize != 0
    ensures forall a | a in ListArticles(db, conferenceId, Some(page), Some(pageSize), searchTerm).value ::
      a !in ListArticles(db, conferenceId, Some(page + 1), Some(pageSize), searchTerm).value
  {
    var selected := SelectedArticles(db.articles, conferenceId, searchTerm);
    var left := ListArticles(db, conferenceId, Some(page), Some(pageSize), searchTerm).value;
    var right := ListArticles(db, conferenceId, Some(page + 1), Some(pageSize), searchTerm).value;
    ConsecutivePagesTile(db, conferenceId, page, pageSize, searchTerm);
    FilterUnique(db.articles, ArticleKey, (a: Article) => Selected(a, conferenceId, searchTerm));
    SortedPageAscends(selected, ArticleKey, PageStart(page, pageSize), 2 * pageSize);
    StrictlySortedDisjoint(left, right, ArticleKey);
  }

  /** A paged listing is in strictly ascending id order. */
  lemma PagedListingAscends(db: Db, conferenceId: int, page: nat, pageSize: nat, searchTerm: Option<string>)
    requires UniqueKeys(db.articles, ArticleKey)
    requires page != 0 && pageSize != 0
    ensures StrictlySortedBy(ListArticles(db, conferenceId, Some(page), Some(pageSize), searchTerm).value, ArticleKey)
  {
    var selected := SelectedArticles(db.articles, conferenceId, searchTerm);
    FilterUnique(db.articles, ArticleKey, (a: Article) => Selected(a, conferenceId, searchTerm));
    SortedPageAscends(selected, ArticleKey, PageStart(page, pageSize), pageSize);
  }

  /** With any page size, every selected article is on some page. */
  lemma EveryArticleOnSomePage(db: Db, conferenceId: int, pageSize: nat, searchTerm: Option<string>, a: Article)
    requires pageSize != 0
    requires a in db.articles && Selected(a, conferenceId, searchTerm)
    ensures exists page: nat :: page != 0 && a in ListArticles(db, conferenceId, Some(page), Some(pageSize), searchTerm).value
  {
    var selected := SelectedArticles(db.articles, conferenceId, searchTerm);
    var q, offset := SortedPageCovers(selected, ArticleKey, pageSize, a);
    var page: nat := q + 1;
    assert PageStart(page, pageSize) == offset;
    assert ListArticles(db, conferenceId, Some(page), Some(pageSize), searchTerm).value
        == SortedPage(selected, ArticleKey, offset, pageSize);
  }

  /** An empty search term lists the same as no search term. */
  lemma EmptyTermIsNoSearch(db: Db, conferenceId: int, page: Option<nat>, pageSize: Option<nat>)
    ensures ListArticles(db, conferenceId, page, pageSize, Some([])) == ListArticles(db, conferenceId, page, pageSize, None)
  {
    FilterSame(db.articles, (a: Article) => Selected(a, conferenceId, Some([])), (a: Article) => Selected(a, conferenceId, None));
  }

  /** GET /:articleId: the article with that id, whichever conference is in
      the path, with its track; an empty 200 reply when there is none. */
  function GetArticle(db: Db, articleId: int): (r: Reply<Option<ArticleWithTrack>>)
    reads db
    ensures r.Ok? && r.status == 200
    ensures r.value.Some? <==> exists a | a in db.articles :: a.id == articleId
    ensures r.value.Some? ==>
      && r.value.value.article in db.articles && r.value.value.article.id == articleId
      && (r.value.value.track.Some? <==> exists t | t in db.tracks :: t.id == r.value.value.article.trackId)
      && (r.value.value.track.Some? ==>
            r.value.value.track.value in db.tracks && r.value.value.track.value.id == r.value.value.article.trackId)
  {
    match FindFirst(db.articles, (a: Article) => a.id == articleId)
    case None => Ok(200, None)
    case Some(a) => Ok(200, Some(ArticleWithTrack(a, FindFirst(db.tracks, (t: Track) => t.id == a.trackId))))
  }

  /** `update(article).set({ title, authors, abstract })` on the article with that id. */
  function UpdateArticleRows(articles: seq<Article>, articleId: int, title: string, authors: string, abstractText: string)
    : (r: seq<Article>)
    ensures |r| == |articles|
    ensures forall i | 0 <= i < |articles| && articles[i].id == articleId ::
      && r[i].title == title && r[i].authors == authors && r[i].abstractText == abstractText
      && r[i].id == articles[i].id
      && r[i].startDate == articles[i].startDate && r[i].endDate == articles[i].endDate
      && r[i].conferenceId == articles[i].conferenceId && r[i].trackId == articles[i].trackId
    ensures forall i | 0 <= i < |articles| && articles[i].id != articleId :: r[i] == articles[i]
  {
    UpdateWhere(articles,
      (a: Article) => a.id == articleId,
      (a: Article) => a.(title := title, authors := authors, abstractText := abstractText))
  }

  /** PATCH /:articleId: an admin overwrites the title, authors and abstract of
      the article and gets back the updated rows. */
  method UpdateArticle(db: Db, principal: int, articleId: int, title: string, authors: string, abstractText: string)
    returns (r: Reply<seq<Article>>)
    requires db.Valid()
    modifies db`articles
    ensures db.Valid()
    ensures !IsAdmin(db, principal) ==> r == Refused(401, AccessDenied) && db.articles == old(db.articles)
    ensures IsAdmin(db, principal) ==>
      && db.articles == UpdateArticleRows(old(db.articles), articleId, title, authors, abstractText)
      && r.Ok? && r.status == 200
      && forall a :: a in r.value <==> a in db.articles && a.id == articleId
  {
    if !IsAdmin(db, principal) {
      return Refused(401, AccessDenied);
    }
    UpdateUnique(db.articles, ArticleKey,
      (a: Article) => a.id == articleId,
      (a: Article) => a.(title := title, authors := authors, abstractText := abstractText));
    db.articles := UpdateArticleRows(db.articles, articleId, title, authors, abstractText);
    r := Ok(200, Filter(db.articles, (a: Article) => a.id == articleId));
  }

  /** `delete(article).where(eq(article.id, articleId))`. */
  function RemoveArticle(articles: seq<Article>, articleId: int): (r: seq<Article>)
    ensures forall a :: a in r <==> a in articles && a.id != articleId
  {
    Filter(articles, (a: Article) => a.id != articleId)
  }

  /** DELETE /:articleId: an admin deletes the article; the handler then never
      responds. Only the articles table changes, so the article's questions stay. */
  method DeleteArticle(db: Db, principal: int, articleId: int) returns (r: Reply<()>)
    requires db.Valid()
    modifies db`articles
    ensures db.Valid()
    ensures !IsAdmin(db, principal) ==> r == Refused(401, AccessDenied) && db.articles == old(db.articles)
    ensures IsAdmin(db, principal) ==> r == Silent && db.articles == RemoveArticle(old(db.articles), articleId)
  {
    if !IsAdmin(db, principal) {
      return Refused(401, AccessDenied);
    }
    FilterUnique(db.articles, ArticleKey, (a: Article) => a.id != articleId);
    db.articles := RemoveArticle(db.articles, articleId);
    r := Silent;
  }
}
