/** The records the routers write, the database as one object holding a
    table per record kind, what a handler sends back, and the principal
    lookup that opens every authenticated handler. */
module Schema {
  import opened Tables

  datatype Role = Regular | Admin   // the `role` enum: "user" | "admin"

  datatype User = User(id: int, name: string, password: string, email: string, role: Role)

  /** Latitude and longitude are stored and returned, never computed with. */
  type Coordinate = real

  datatype Conference = Conference(
    id: int, name: string, latitude: Coordinate, longitude: Coordinate,
    startDate: string, endDate: string, imageUrl: string, description: string,
    city: Option<string>)

  datatype Track = Track(id: int, name: string, room: string, description: string, conferenceId: int)

  datatype Article = Article(
    id: int, title: string, authors: string, abstractText: string,  // the `abstract` column
    startDate: string, endDate: string, conferenceId: int, trackId: int)

  datatype Status = Pending | Answered

  /** A row of `conferenceQuestions` (a "request", `target` is its conference id)
      or of `articleQuestions` (`target` is its article id). */
  datatype Question = Question(
    id: int, question: string, answer: Option<string>, status: Status,
    userId: int, target: int)

  function UserKey(u: User): int { u.id }
  function ConferenceKey(c: Conference): int { c.id }
  function TrackKey(t: Track): int { t.id }
  function ArticleKey(a: Article): int { a.id }
  function QuestionKey(q: Question): int { q.id }

  /** What a handler sends: `res.status(s).json(value)` or `res.send(value)`;
      `res.status(s).json({ message })`; a status with no body; or nothing at
      all, when the handler returns without ending the response. */
  datatype Reply<T> =
    | Ok(status: int, value: T)
    | Refused(status: int, message: string)
    | Bare(status: int)
    | Silent

  const AccessDenied := "Access denied"
  const UserNotFound := "User not found"
  const QuestionNotFound := "Question not found"

  /** A question is answered exactly when it carries an answer. */
  ghost predicate AnswerMatchesStatus(qs: seq<Question>) {
    forall q | q in qs :: q.answer.Some? <==> q.status == Answered
  }

  /** No two users share an email address. */
  ghost predicate UniqueEmails(users: seq<User>) {
    forall i, j | 0 <= i < |users| && 0 <= j < |users| && i != j :: users[i].email != users[j].email
  }

  class Db {
    var users: seq<User>
    var conferences: seq<Conference>
    var tracks: seq<Track>
    var articles: seq<Article>
    var conferenceQuestions: seq<Question>
    var articleQuestions: seq<Question>

    /** Serial ids are unique in every table, emails are unique, and every
        question's answer agrees with its status. */
    ghost predicate Valid()
      reads this
    {
      && UniqueKeys(users, UserKey)
      && UniqueKeys(conferences, ConferenceKey)
      && UniqueKeys(tracks, TrackKey)
      && UniqueKeys(articles, ArticleKey)
      && UniqueKeys(conferenceQuestions, QuestionKey)
      && UniqueKeys(articleQuestions, QuestionKey)
      && UniqueEmails(users)
      && AnswerMatchesStatus(conferenceQuestions)
      && AnswerMatchesStatus(articleQuestions)
    }

    constructor ()
      ensures Valid()
      ensures users == [] && conferences == [] && tracks == [] && articles == []
      ensures conferenceQuestions == [] && articleQuestions == []
    {
      users, conferences, tracks, articles := [], [], [], [];
      conferenceQuestions, articleQuestions := [], [];
    }
  }

  /** `db.query.user.findFirst({ where: eq(user.id, userId) })`. */
  function FindUser(db: Db, userId: int): (r: Option<User>)
    reads db
    ensures r.Some? <==> exists u | u in db.users :: u.id == userId
    ensures r.Some? ==> r.value in db.users && r.value.id == userId
  {
    FindFirst(db.users, (u: User) => u.id == userId)
  }

  /** The admin gate `!user || user.role !== "admin"` fails exactly when this is false. */
  predicate IsAdmin(db: Db, userId: int)
    reads db
  {
    var u := FindUser(db, userId);
    u.Some? && u.value.role == Admin
  }

  /** With unique ids, the principal is an admin exactly when the users table
      holds a row with that id and role admin. */
  lemma IsAdminIff(db: Db, userId: int)
    requires UniqueKeys(db.users, UserKey)
    ensures IsAdmin(db, userId) <==> exists u | u in db.users :: u.id == userId && u.role == Admin
  {
    if u :| u in db.users && u.id == userId && u.role == Admin {
      var v := FindUser(db, userId).value;
      var i :| 0 <= i < |db.users| && db.users[i] == u;
      var j :| 0 <= j < |db.users| && db.users[j] == v;
      assert UserKey(db.users[i]) == UserKey(db.users[j]);
    }
  }
}
