/** routers/questionRouter.ts: questions about an article. A known user asks;
    an admin fetches, answers and deletes by id; any known user reads the
    answered questions of an article. */
module QuestionRouter {
  import opened Tables
  import opened Schema
  import opened QuestionTable

  /** POST /api/v1/questions/:id: a known user asks about article `articleId`;
      the question is stored pending and unanswered. */
  method CreateQuestion(db: Db, principal: int, articleId: int, question: string) returns (r: Reply<seq<Question>>)
    requires db.Valid()
    modifies db`articleQuestions
    ensures db.Valid()
    ensures FindUser(db, principal).None? ==>
      r == Refused(401, UserNotFound) && db.articleQuestions == old(db.articleQuestions)
    ensures FindUser(db, principal).Some? ==>
      var q := Ask(old(db.articleQuestions), question, principal, articleId);
      db.articleQuestions == old(db.articleQuestions) + [q] && r == Ok(200, [q])
  {
    if FindUser(db, principal).None? {
      return Refused(401, UserNotFound);
    }
    var q := Ask(db.articleQuestions, question, principal, articleId);
    AskKeepsInvariant(db.articleQuestions, question, principal, articleId);
    db.articleQuestions := db.articleQuestions + [q];
    r := Ok(200, [q]);
  }

  /** GET /api/v1/questions/:questionId: admins only; an unknown id gives an empty 200 reply. */
  function GetQuestion(db: Db, principal: int, questionId: int): (r: Reply<Option<Question>>)
    reads db
    ensures !IsAdmin(db, principal) ==> r == Refused(401, AccessDenied)
    ensures IsAdmin(db, principal) ==> r.Ok? && r.status == 200
    ensures IsAdmin(db, principal) ==>
      (r.value.Some? <==> exists q | q in db.articleQuestions :: q.id == questionId)
    ensures r.Ok? && r.value.Some? ==> r.value.value in db.articleQuestions && r.value.value.id == questionId
  {
    if !IsAdmin(db, principal) then Refused(401, AccessDenied)
    else Ok(200, Find(db.articleQuestions, questionId))
  }

  /** GET /api/v1/articles/:articleId/questions: the answered questions of the
      article, whoever asked them; pending ones are never shown. */
  function ListAnswered(db: Db, principal: int, articleId: int): (r: Reply<seq<Question>>)
    reads db
    ensures FindUser(db, principal).None? ==> r == Refused(401, UserNotFound)
    ensures FindUser(db, principal).Some? ==> r.Ok? && r.status == 200
    ensures r.Ok? ==> forall q :: q in r.value <==>
      q in db.articleQuestions && q.target == articleId && q.status == Answered
  {
    if FindUser(db, principal).None? then Refused(401, UserNotFound)
    else Ok(200, AnsweredForTarget(db.articleQuestions, articleId))
  }

  /** PATCH /api/v1/questions/:questionId: an admin answers a question; an
      unknown id is refused with 401 "Question not found". */
  method AnswerQuestion(db: Db, principal: int, questionId: int, answer: string) returns (r: Reply<seq<Question>>)
    requires db.Valid()
    modifies db`articleQuestions
    ensures db.Valid()
    ensures !IsAdmin(db, principal) ==>
      r == Refused(401, AccessDenied) && db.articleQuestions == old(db.articleQuestions)
    ensures IsAdmin(db, principal) && Find(old(db.articleQuestions), questionId).None? ==>
      r == Refused(401, QuestionNotFound) && db.articleQuestions == old(db.articleQuestions)
    ensures IsAdmin(db, principal) && Find(old(db.articleQuestions), questionId).Some? ==>
      && db.articleQuestions == Answer(old(db.articleQuestions), questionId, answer)
      && r == Ok(200, [WithAnswer(Find(old(db.articleQuestions), questionId).value, answer)])
  {
    if !IsAdmin(db, principal) {
      return Refused(401, AccessDenied);
    }
    var question := Find(db.articleQuestions, questionId);
    if question.None? {
      return Refused(401, QuestionNotFound);
    }
    AnswerKeepsInvariant(db.articleQuestions, questionId, answer);
    db.articleQuestions := Answer(db.articleQuestions, questionId, answer);
    r := Ok(200, [WithAnswer(question.value, answer)]);
  }

  /** DELETE /api/v1/questions/:questionId: an admin deletes a question; an
      unknown id is refused with 401 "Question not found". On success the
      handler sets status 200 but never ends the response. */
  method DeleteQuestion(db: Db, principal: int, questionId: int) returns (r: Reply<()>)
    requires db.Valid()
    modifies db`articleQuestions
    ensures db.Valid()
    ensures !IsAdmin(db, principal) ==>
      r == Refused(401, AccessDenied) && db.articleQuestions == old(db.articleQuestions)
    ensures IsAdmin(db, principal) && Find(old(db.articleQuestions), questionId).None? ==>
      r == Refused(401, QuestionNotFound) && db.articleQuestions == old(db.articleQuestions)
    ensures IsAdmin(db, principal) && Find(old(db.articleQuestions), questionId).Some? ==>
      r == Silent && db.articleQuestions == Remove(old(db.articleQuestions), questionId)
      && |db.articleQuestions| == |old(db.articleQuestions)| - 1
  {
    if !IsAdmin(db, principal) {
      return Refused(401, AccessDenied);
    }
    var question := Find(db.articleQuestions, questionId);
    if question.None? {
      return Refused(401, QuestionNotFound);
    }
    RemoveKeepsInvariant(db.articleQuestions, questionId);
    RemoveExisting(db.articleQuestions, question.value);
    db.articleQuestions := Remove(db.articleQuestions, questionId);
    r := Silent;
  }
}
