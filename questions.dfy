/** questions.ts: the older question router. Admins list every question of a
    conference or an article; users list their own conference questions and
    the answered questions of an article; users ask both kinds. Replies are
    sent with `res.json`, so their status is 200. */
module QuestionsLegacy {
  import opened Tables
  import opened Schema
  import opened QuestionTable

  /** GET /admin/conferences/:id: every question of the conference, whoever asked it. */
  function AdminConferenceQuestions(db: Db, principal: int, conferenceId: int): (r: Reply<seq<Question>>)
    reads db
    ensures !IsAdmin(db, principal) ==> r == Refused(401, AccessDenied)
    ensures IsAdmin(db, principal) ==> r.Ok? && r.status == 200
    ensures r.Ok? ==> forall q :: q in r.value <==> q in db.conferenceQuestions && q.target == conferenceId
  {
    if !IsAdmin(db, principal) then Refused(401, AccessDenied)
    else Ok(200, ForTarget(db.conferenceQuestions, conferenceId))
  }

  /** GET /conferences/:id: the principal's own questions about the conference. */
  function UserConferenceQuestions(db: Db, principal: int, conferenceId: int): (r: Reply<seq<Question>>)
    reads db
    ensures FindUser(db, principal).None? ==> r == Refused(401, UserNotFound)
    ensures FindUser(db, principal).Some? ==> r.Ok? && r.status == 200
    ensures r.Ok? ==> forall q :: q in r.value <==>
      q in db.conferenceQuestions && q.target == conferenceId && q.userId == principal
  {
    if FindUser(db, principal).None? then Refused(401, UserNotFound)
    else Ok(200, OwnForTarget(db.conferenceQuestions, conferenceId, principal))
  }

  /** An admin's conference listing contains every user's own listing for that conference. */
  lemma AdminSeesWhatUsersSee(db: Db, admin: int, user: int, conferenceId: int)
    requires IsAdmin(db, admin) && FindUser(db, user).Some?
    ensures forall q | q in UserConferenceQuestions(db, user, conferenceId).value ::
      q in AdminConferenceQuestions(db, admin, conferenceId).value
  {
  }

  /** POST /conferences/:id: a known user asks about a conference. */
  method CreateConferenceQuestion(db: Db, principal: int, conferenceId: int, question: string)
    returns (r: Reply<seq<Question>>)
    requires db.Valid()
    modifies db`conferenceQuestions
    ensures db.Valid()
    ensures FindUser(db, principal).None? ==>
      r == Refused(401, UserNotFound) && db.conferenceQuestions == old(db.conferenceQuestions)
    ensures FindUser(db, principal).Some? ==>
      var q := Ask(old(db.conferenceQuestions), question, principal, conferenceId);
      db.conferenceQuestions == old(db.conferenceQuestions) + [q] && r == Ok(200, [q])
  {
    if FindUser(db, principal).None? {
      return Refused(401, UserNotFound);
    }
    var q := Ask(db.conferenceQuestions, question, principal, conferenceId);
    AskKeepsInvariant(db.conferenceQuestions, question, principal, conferenceId);
    db.conferenceQuestions := db.conferenceQuestions + [q];
    r := Ok(200, [q]);
  }

  /** GET /admin/articles/:id: every question of the article, pending or answered. */
  function AdminArticleQuestions(db: Db, principal: int, articleId: int): (r: Reply<seq<Question>>)
    reads db
    ensures !IsAdmin(db, principal) ==> r == Refused(401, AccessDenied)
    ensures IsAdmin(db, principal) ==> r.Ok? && r.status == 200
    ensures r.Ok? ==> forall q :: q in r.value <==> q in db.articleQuestions && q.target == articleId
  {
    if !IsAdmin(db, principal) then Refused(401, AccessDenied)
    else Ok(200, ForTarget(db.articleQuestions, articleId))
  }

  /** GET /articles/:id: only the answered questions of the article. */
  function UserArticleQuestions(db: Db, principal: int, articleId: int): (r: Reply<seq<Question>>)
    reads db
    ensures FindUser(db, principal).None? ==> r == Refused(401, UserNotFound)
    ensures FindUser(db, principal).Some? ==> r.Ok? && r.status == 200
    ensures r.Ok? ==> forall q :: q in r.value <==>
      q in db.articleQuestions && q.target == articleId && q.status == Answered
  {
    if FindUser(db, principal).None? then Refused(401, UserNotFound)
    else Ok(200, AnsweredForTarget(db.articleQuestions, articleId))
  }

  /** POST /articles/:id: a known user asks about an article. */
  method CreateArticleQuestion(db: Db, principal: int, articleId: int, question: string)
    returns (r: Reply<seq<Question>>)
    requires db.Valid()
    modifies db`articleQuestions
    ensures db.Valid()
    ensures FindUser(db, principal).None? ==>
      r == Refused(401, UserNotFound) && db.articleQuestions == old(db.articleQuestions)
    ensures FindUser(db, principal).Some? ==>
      var q := Ask(old(db.articleQuestions), question, principal, articleId);
      db.articleQuestions == old(db.articleQuestions) + [q] && r == Ok(200, [q])
  {
    if FindUser(db, principal).None? {
      return Refused(401, UserNotFound);
    }
    var q := Ask(db.articleQuestions, question, principal, articleId);
    AskKeepsInvariant(db.articleQuestions, question, principal, articleId);
    db.articleQuestions := db.articleQuestions + [q];
    r := Ok(200, [q]);
  }
}
