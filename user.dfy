/** user.ts: the older user router. It keeps the same table rules as
    routers/userRouter.ts (a used email is refused, a new user has role
    "user", one message for both login failures) but answers a registration
    with 201 and the inserted row, and its profile is a greeting. Its login
    and `authenticateToken` are the same code as the newer router's, so
    `UserRouter.Login` and `UserRouter.AuthenticateToken` model them. */
module UserLegacy {
  import opened Tables
  import opened Schema
  import UserRouter

  /** POST /register: an unused email gets a new user with role "user", sent
      back whole (password hash included) with 201; a used email is refused and
      nothing is inserted. */
  method Register(db: Db, name: string, email: string, passwordHash: string) returns (r: Reply<seq<User>>)
    requires db.Valid()
    modifies db`users
    ensures db.Valid()
    ensures (exists u | u in old(db.users) :: u.email == email) ==>
      r == Refused(400, UserRouter.UserExists) && db.users == old(db.users)
    ensures (forall u | u in old(db.users) :: u.email != email) ==>
      var u := UserRouter.NewUser(old(db.users), name, email, passwordHash);
      db.users == old(db.users) + [u] && r == Ok(201, [u])
  {
    if UserRouter.FindByEmail(db.users, email).Some? {
      return Refused(400, UserRouter.UserExists);
    }
    var u := UserRouter.NewUser(db.users, name, email, passwordHash);
    UserRouter.NewUserKeepsInvariant(db.users, name, email, passwordHash);
    db.users := db.users + [u];
    r := Ok(201, [u]);
  }

  /** A non-empty run of decimal digits. */
  predicate Digits(s: string) {
    s != [] && forall i | 0 <= i < |s| :: '0' <= s[i] <= '9'
  }

  /** Digits without a leading zero, the way JavaScript writes a natural number. */
  predicate Canonical(s: string) {
    Digits(s) && (|s| > 1 ==> s[0] != '0')
  }

  /** The way JavaScript writes an integer: canonical digits, or a minus sign
      before canonical digits other than "0". */
  predicate Numeral(s: string) {
    Canonical(s) || (|s| > 1 && s[0] == '-' && Canonical(s[1..]) && s[1..] != "0")
  }

  /** The number a run of digits denotes, most significant digit first. */
  function DigitsValue(s: string): nat
    requires forall i | 0 <= i < |s| :: '0' <= s[i] <= '9'
  {
    if s == [] then 0 else DigitsValue(s[..|s| - 1]) * 10 + (s[|s| - 1] as int - '0' as int)
  }

  /** The integer a numeral denotes. */
  function NumeralValue(s: string): int
    requires Numeral(s)
  {
    if s[0] == '-' then -(DigitsValue(s[1..]) as int) else DigitsValue(s)
  }

  /** `${n}` for a natural number: canonical digits that denote `n`. */
  function Decimal(n: nat): (s: string)
    ensures Canonical(s) && DigitsValue(s) == n
  {
    var digit := ['0' + (n % 10) as char];
    if n < 10 then digit
    else
      var init := Decimal(n / 10);
      assert (init + digit)[..|init|] == init;
      init + digit
  }

  /** Only zero is written "0", and no other canonical numeral denotes zero. */
  lemma {:induction false} CanonicalZero(s: string)
    requires Canonical(s) && DigitsValue(s) == 0
    ensures s == "0"
  {
    if |s| > 1 {
      var init := s[..|s| - 1];
      assert init[0] == s[0];
      CanonicalZero(init);
    }
  }

  /** Each natural number has exactly one canonical numeral, so `Decimal(n)`
      is the text JavaScript produces for `n`. */
  lemma {:induction false} DecimalUnique(s: string, n: nat)
    requires Canonical(s) && DigitsValue(s) == n
    ensures s == Decimal(n)
  {
    var last := s[|s| - 1] as int - '0' as int;
    if |s| == 1 {
      assert n == last;
    } else {
      var init := s[..|s| - 1];
      assert init[0] == s[0];
      assert Canonical(init);
      if DigitsValue(init) == 0 {
        CanonicalZero(init);
      }
      assert n / 10 == DigitsValue(init) && n % 10 == last;
      DecimalUnique(init, n / 10);
      assert s == init + [s[|s| - 1]];
    }
  }

  /** `${id}` for an integer id: the numeral that denotes it. */
  function IntText(id: int): (s: string)
    ensures Numeral(s) && NumeralValue(s) == id
  {
    if id < 0 then
      var digits := Decimal(-id);
      assert ("-" + digits)[1..] == digits;
      "-" + digits
    else Decimal(id)
  }

  /** GET /profile: a greeting naming the principal id in the token. */
  function Profile(principal: int): (r: Reply<string>)
    ensures r.Ok? && r.status == 200
    ensures "Welcome, User " <= r.value && r.value[|r.value| - 1] == '!'
    ensures |r.value| > |"Welcome, User "| + 1
    ensures Numeral(r.value[|"Welcome, User "|..|r.value| - 1])
    ensures NumeralValue(r.value[|"Welcome, User "|..|r.value| - 1]) == principal
  {
    Ok(200, "Welcome, User " + IntText(principal) + "!")
  }
}
