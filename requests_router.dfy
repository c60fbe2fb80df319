/** routers/requestsRouter.ts: conference questions ("requests"). Admins list,
    fetch, answer and delete any request; a user asks a question about a
    conference and reads back only their own. Every handler receives the
    principal id that `authenticateToken` resolved and parameters that passed
    validation. */
module RequestsRouter {
  import opened Tables
  import opened Schema
  import opened QuestionTable

  const RequestNotFound := "Request not found"

  /** GET /api/v1/requests: an admin gets every request of every conference. */
  function ListRequests(db: Db, principal: int): (r: Reply<seq<Question>>)
    reads db
    ensures !IsAdmin(db, principal) ==> r == Refused(401, AccessDenied)
    ensures IsAdmin(db, principal) ==> r == Ok(200, db.conferenceQuestions)
  {
    if !IsAdmin(db, principal) then Refused(401, AccessDenied)
    else Ok(200, db.conferenceQuestions)
  }

  /** GET /api/v1/requests/:requestId: an admin gets the request with that id,
      or an empty 200 reply when there is none. */
  function GetRequest(db: Db, principal: int, requestId: int): (r: Reply<Option<Question>>)
    reads db
    ensures !IsAdmin(db, principal) ==> r == Refused(401, AccessDenied)
    ensures IsAdmin(db, principal) ==> r.Ok? && r.status == 200
    ensures IsAdmin(db, principal) ==>
      (r.value.Some? <==> exists q | q in db.conferenceQuestions :: q.id == requestId)
    ensures r.Ok? && r.value.Some? ==> r.value.value in db.conferenceQuestions && r.value.value.id == requestId
  {
    if !IsAdmin(db, principal) then Refused(401, AccessDenied)
    else Ok(200, Find(db.conferenceQuestions, requestId))
  }

  /** PATCH /api/v1/requests/:requestId: an admin answers a request. The
      current status is not consulted, so an answered request is answered again. */
  method AnswerRequest(db: Db, principal: int, requestId: int, answer: string) returns (r: Reply<seq<Question>>)
    requires db.Valid()
    modifies db`conferenceQuestions
    ensures db.Valid()
    ensures !IsAdmin(db, principal) ==>
      r == Refused(401, AccessDenied) && db.conferenceQuestions == old(db.conferenceQuestions)
    ensures IsAdmin(db, principal) && Find(old(db.conferenceQuestions), requestId).None? ==>
      r == Refused(401, QuestionNotFound) && db.conferenceQuestions == old(db.conferenceQuestions)
    ensures IsAdmin(db, principal) && Find(old(db.conferenceQuestions), requestId).Some? ==>
      && db.conferenceQuestions == Answer(old(db.conferenceQuestions), requestId, answer)
      && r == Ok(200, [WithAnswer(Find(old(db.conferenceQuestions), requestId).value, answer)])
  {
    if !IsAdmin(db, principal) {
      return Refused(401, AccessDenied);
    }
    var question := Find(db.conferenceQuestions, requestId);
    if question.None? {
      return Refused(401, QuestionNotFound);
    }
    AnswerKeepsInvariant(db.conferenceQuestions, requestId, answer);
    db.conferenceQuestions := Answer(db.conferenceQuestions, requestId, answer);
    r := Ok(200, [WithAnswer(question.value, answer)]);
  }

  /** DELETE /api/v1/requests/:requestId: an admin deletes the request; an
      unknown id is not an error. */
  method DeleteRequest(db: Db, principal: int, requestId: int) returns (r: Reply<()>)
    requires db.Valid()
    modifies db`conferenceQuestions
    ensures db.Valid()
    ensures !IsAdmin(db, principal) ==>
      r == Refused(401, AccessDenied) && db.conferenceQuestions == old(db.conferenceQuestions)
    ensures IsAdmin(db, principal) ==>
      r == Bare(200) && db.conferenceQuestions == Remove(old(db.conferenceQuestions), requestId)
  {
    if !IsAdmin(db, principal) {
      return Refused(401, AccessDenied);
    }
    RemoveKeepsInvariant(db.conferenceQuestions, requestId);
    db.conferenceQuestions := Remove(db.conferenceQuestions, requestId);
    r := Bare(200);
  }

  /** POST /api/v1/conferences/:conferenceId/requests: a known user asks a
      question; it is stored pending, unanswered, with the asker and the
      conference of the path. */
  method CreateRequest(db: Db, principal: int, conferenceId: int, question: string) returns (r: Reply<seq<Question>>)
    requires db.Valid()
    modifies db`conferenceQuestions
    ensures db.Valid()
    ensures FindUser(db, principal).None? ==>
      r == Refused(401, UserNotFound) && db.conferenceQuestions == old(db.conferenceQuestions)
    ensures FindUser(db, principal).Some? ==>
      var q := Ask(old(db.conferenceQuestions), question, principal, conferenceId);
      db.conferenceQuestions == old(db.conferenceQuestions) + [q] && r == Ok(200, [q])
  {
    if FindUser(db, principal).None? {
      return Refused(401, UserNotFound);
    }
    var q := Ask(db.conferenceQuestions, question, principal, conferenceId);
    AskKeepsInvariant(db.conferenceQuestions, question, principal, conferenceId);
    db.conferenceQuestions := db.conferenceQuestions + [q];
    r := Ok(200, [q]);
  }

  /** GET /api/v1/conferences/:conferenceId/requests: a user's own requests
      about that conference, and no one else's. */
  function ListOwnRequests(db: Db, principal: int, conferenceId: int): (r: Reply<seq<Question>>)
    reads db
    ensures FindUser(db, principal).None? ==> r == Refused(401, UserNotFound)
    ensures FindUser(db, principal).Some? ==> r.Ok? && r.status == 200
    ensures r.Ok? ==> forall q :: q in r.value <==>
      q in db.conferenceQuestions && q.target == conferenceId && q.userId == principal
  {
    if FindUser(db, principal).None? then Refused(401, UserNotFound)
    else Ok(200, OwnForTarget(db.conferenceQuestions, conferenceId, principal))
  }

  /** GET /api/v1/conferences/:conferenceId/requests/:requestId: a user's own
      request by id. The conference in the path takes no part in the lookup. */
  function GetOwnRequest(db: Db, principal: int, requestId: int): (r: Reply<Question>)
    reads db
    ensures FindUser(db, principal).None? ==> r == Refused(401, UserNotFound)
    ensures FindUser(db, principal).Some? ==>
      (r.Ok? <==> exists q | q in db.conferenceQuestions :: q.userId == principal && q.id == requestId)
    ensures FindUser(db, principal).Some? && !r.Ok? ==> r == Refused(404, RequestNotFound)
    ensures r.Ok? ==>
      && r.status == 200 && r.value in db.conferenceQuestions
      && r.value.userId == principal && r.value.id == requestId
  {
    if FindUser(db, principal).None? then Refused(401, UserNotFound)
    else
      match FindFirst(db.conferenceQuestions, (q: Question) => q.userId == principal && q.id == requestId)
      case None => Refused(404, RequestNotFound)
      case Some(q) => Ok(200, q)
  }
}
