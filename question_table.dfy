/** The life of a question row, shared by the `conferenceQuestions`
    ("requests") and `articleQuestions` tables: it is inserted pending with
    no answer, an admin's answer sets `answer` and `status = "answered"`, and
    an admin's delete removes it. Also the three ways the routers list them. */
module QuestionTable {
  import opened Tables
  import opened Schema

  /** The row a POST inserts: a fresh serial id, the asker, the target, pending, no answer. */
  function Ask(qs: seq<Question>, text: string, userId: int, target: int): (q: Question)
    ensures q.status == Pending && q.answer == None
    ensures q.question == text && q.userId == userId && q.target == target
    ensures q.id > 0 && forall p | p in qs :: p.id < q.id
  {
    Question(FreshKey(qs, QuestionKey), text, None, Pending, userId, target)
  }

  /** Inserting an asked question keeps ids unique and answers in step with status. */
  lemma AskKeepsInvariant(qs: seq<Question>, text: string, userId: int, target: int)
    requires UniqueKeys(qs, QuestionKey) && AnswerMatchesStatus(qs)
    ensures UniqueKeys(qs + [Ask(qs, text, userId, target)], QuestionKey)
    ensures AnswerMatchesStatus(qs + [Ask(qs, text, userId, target)])
  {
    AppendFresh(qs, QuestionKey, Ask(qs, text, userId, target));
  }

  /** `findFirst({ where: eq(id, questionId) })`. */
  function Find(qs: seq<Question>, id: int): (r: Option<Question>)
    ensures r.Some? <==> exists q | q in qs :: q.id == id
    ensures r.Some? ==> r.value in qs && r.value.id == id
  {
    FindFirst(qs, (q: Question) => q.id == id)
  }

  /** With unique ids, the row found for an id is the row with that id. */
  lemma FindUnique(qs: seq<Question>, q: Question)
    requires UniqueKeys(qs, QuestionKey) && q in qs
    ensures Find(qs, q.id) == Some(q)
  {
    var v := Find(qs, q.id).value;
    var i :| 0 <= i < |qs| && qs[i] == q;
    var j :| 0 <= j < |qs| && qs[j] == v;
    assert QuestionKey(qs[i]) == QuestionKey(qs[j]);
  }

  /** The answered form of a row: the answer text is set and the status is "answered". */
  function WithAnswer(q: Question, answer: string): (a: Question)
    ensures a.answer == Some(answer) && a.status == Answered
    ensures a.id == q.id && a.question == q.question && a.userId == q.userId && a.target == q.target
  {
    q.(answer := Some(answer), status := Answered)
  }

  /** `update(...).set({ answer, status: "answered" }).where(eq(id, questionId))`:
      the row with that id is answered, whatever its status was; every other row
      stays as it was, in place. */
  function Answer(qs: seq<Question>, id: int, answer: string): (r: seq<Question>)
    ensures |r| == |qs|
    ensures forall i | 0 <= i < |qs| && qs[i].id == id :: r[i] == WithAnswer(qs[i], answer)
    ensures forall i | 0 <= i < |qs| && qs[i].id != id :: r[i] == qs[i]
  {
    UpdateWhere(qs, (q: Question) => q.id == id, (q: Question) => WithAnswer(q, answer))
  }

  /** Answering keeps ids unique and answers in step with status. */
  lemma AnswerKeepsInvariant(qs: seq<Question>, id: int, answer: string)
    requires UniqueKeys(qs, QuestionKey) && AnswerMatchesStatus(qs)
    ensures UniqueKeys(Answer(qs, id, answer), QuestionKey)
    ensures AnswerMatchesStatus(Answer(qs, id, answer))
  {
    var r := Answer(qs, id, answer);
    forall i, j | 0 <= i < |r| && 0 <= j < |r| && i != j
      ensures QuestionKey(r[i]) != QuestionKey(r[j])
    {
      assert r[i].id == qs[i].id && r[j].id == qs[j].id;
    }
    forall q | q in r ensures q.answer.Some? <==> q.status == Answered {
      var i :| 0 <= i < |r| && r[i] == q;
      assert qs[i] in qs;
    }
  }

  /** Answering does not look at the status: a second answer overwrites the first. */
  lemma AnswerOverwrites(qs: seq<Question>, id: int, first: string, second: string)
    ensures Answer(Answer(qs, id, first), id, second) == Answer(qs, id, second)
  {
    var a, b := Answer(Answer(qs, id, first), id, second), Answer(qs, id, second);
    assert |a| == |b|;
    forall i | 0 <= i < |a| ensures a[i] == b[i] {
      assert Answer(qs, id, first)[i].id == qs[i].id;
    }
  }

  /** Answering an id no row has changes nothing. */
  lemma AnswerMissing(qs: seq<Question>, id: int, answer: string)
    requires forall q | q in qs :: q.id != id
    ensures Answer(qs, id, answer) == qs
  {
    var r := Answer(qs, id, answer);
    forall i | 0 <= i < |qs| ensures r[i] == qs[i] {
      assert qs[i] in qs;
    }
  }

  /** `delete(...).where(eq(id, questionId))`. */
  function Remove(qs: seq<Question>, id: int): (r: seq<Question>)
    ensures forall q :: q in r <==> q in qs && q.id != id
    ensures |r| <= |qs|
  {
    Filter(qs, (q: Question) => q.id != id)
  }

  /** Deleting an id no row has changes nothing. */
  lemma RemoveMissing(qs: seq<Question>, id: int)
    requires forall q | q in qs :: q.id != id
    ensures Remove(qs, id) == qs
  {
    FilterAll(qs, (q: Question) => q.id != id);
  }

  /** Deleting an existing question shortens the table by exactly one row. */
  lemma RemoveExisting(qs: seq<Question>, q: Question)
    requires UniqueKeys(qs, QuestionKey) && q in qs
    ensures |Remove(qs, q.id)| == |qs| - 1
  {
    RemoveCount(qs, q.id);
    CountUnique(qs, q);
  }

  /** How many rows carry the id. */
  function CountId(qs: seq<Question>, id: int): nat {
    if qs == [] then 0
    else CountId(qs[..|qs| - 1], id) + (if qs[|qs| - 1].id == id then 1 else 0)
  }

  lemma {:induction false} RemoveCount(qs: seq<Question>, id: int)
    ensures |Remove(qs, id)| == |qs| - CountId(qs, id)
  {
    if qs != [] {
      var init := qs[..|qs| - 1];
      assert qs == init + [qs[|qs| - 1]];
      RemoveCount(init, id);
    }
  }

  lemma {:induction false} CountUnique(qs: seq<Question>, q: Question)
    requires UniqueKeys(qs, QuestionKey) && q in qs
    ensures CountId(qs, q.id) == 1
  {
    var init, last := qs[..|qs| - 1], qs[|qs| - 1];
    assert qs == init + [last];
    assert UniqueKeys(init, QuestionKey) by {
      forall i, j | 0 <= i < |init| && 0 <= j < |init| && i != j
        ensures QuestionKey(init[i]) != QuestionKey(init[j])
      {
        assert init[i] == qs[i] && init[j] == qs[j];
      }
    }
    if last == q {
      NoId(init, q.id, qs);
    } else {
      assert q in init;
      CountUnique(init, q);
      var i :| 0 <= i < |init| && init[i] == q;
      assert qs[i] == q && qs[|qs| - 1] == last;
    }
  }

  lemma {:induction false} NoId(init: seq<Question>, id: int, qs: seq<Question>)
    requires UniqueKeys(qs, QuestionKey) && |qs| > 0 && init == qs[..|qs| - 1] && qs[|qs| - 1].id == id
    ensures CountId(init, id) == 0
  {
    forall q | q in init ensures q.id != id {
      var i :| 0 <= i < |init| && init[i] == q;
      assert qs[i] == q;
    }
    NoIdCount(init, id);
  }

  lemma {:induction false} NoIdCount(qs: seq<Question>, id: int)
    requires forall q | q in qs :: q.id != id
    ensures CountId(qs, id) == 0
  {
    if qs != [] {
      assert qs[|qs| - 1] in qs;
      assert forall q | q in qs[..|qs| - 1] :: q in qs;
      NoIdCount(qs[..|qs| - 1], id);
    }
  }

  /** Deleting keeps ids unique and answers in step with status. */
  lemma RemoveKeepsInvariant(qs: seq<Question>, id: int)
    requires UniqueKeys(qs, QuestionKey) && AnswerMatchesStatus(qs)
    ensures UniqueKeys(Remove(qs, id), QuestionKey)
    ensures AnswerMatchesStatus(Remove(qs, id))
  {
    FilterUnique(qs, QuestionKey, (q: Question) => q.id != id);
  }

  /** The questions of one target (conference or article), whoever asked them. */
  function ForTarget(qs: seq<Question>, target: int): (r: seq<Question>)
    ensures forall q :: q in r <==> q in qs && q.target == target
  {
    Filter(qs, (q: Question) => q.target == target)
  }

  /** The questions of one target that one user asked. */
  function OwnForTarget(qs: seq<Question>, target: int, userId: int): (r: seq<Question>)
    ensures forall q :: q in r <==> q in qs && q.target == target && q.userId == userId
  {
    Filter(qs, (q: Question) => q.target == target && q.userId == userId)
  }

  /** The answered questions of one target; pending questions never appear. */
  function AnsweredForTarget(qs: seq<Question>, target: int): (r: seq<Question>)
    ensures forall q :: q in r <==> q in qs && q.target == target && q.status == Answered
  {
    Filter(qs, (q: Question) => q.target == target && q.status == Answered)
  }

  /** A user's own list is part of what an admin sees for the same target. */
  lemma OwnWithinAll(qs: seq<Question>, target: int, userId: int)
    ensures forall q | q in OwnForTarget(qs, target, userId) :: q in ForTarget(qs, target)
    ensures forall q | q in ForTarget(qs, target) && q.userId == userId :: q in OwnForTarget(qs, target, userId)
  {
  }

  /** A question asked and then answered by an admin is in the answered list of
      its target, and no still-pending question is. */
  lemma AskThenAnswer(qs: seq<Question>, text: string, userId: int, target: int, answer: string)
    ensures
      var asked := Ask(qs, text, userId, target);
      var after := Answer(qs + [asked], asked.id, answer);
      && WithAnswer(asked, answer) in AnsweredForTarget(after, target)
      && forall q | q in after && q.status == Pending :: q !in AnsweredForTarget(after, target)
  {
    var asked := Ask(qs, text, userId, target);
    var table := qs + [asked];
    var after := Answer(table, asked.id, answer);
    assert table[|qs|] == asked;
    assert after[|qs|] == WithAnswer(asked, answer);
  }
}
