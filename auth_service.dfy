/**
 * Registration and login of the server: the e-mail and password checks,
 * the `users` table with its unique e-mail column, and the login outcome.
 * bcrypt and JWT are parameters: `hashed` is what bcrypt.hash gave for the
 * password, `compare` is bcrypt.compare and `sign` is jwt.sign with the
 * server's secret.
 */
module AuthService {
  import opened Wrappers
  import opened Text
  import opened Js
  import Patterns

  const InvalidEmail := "Invalid email format"
  const EmailTaken := "Email already registered"
  const BadLogin := "Invalid email or password"
  const BadToken := "Invalid or expired token"
  const UniqueFailure := "UNIQUE constraint failed"

  /** `[!@#$%^&*]` */
  predicate IsSpecial(c: char) {
    c == '!' || c == '@' || c == '#' || c == '$' || c == '%' || c == '^' || c == '&' || c == '*'
  }

  /** An unanchored one-character class test: `/[..]/.test(s)`. */
  function HasSome(s: string, member: char -> bool): (b: bool)
    ensures b <==> exists k :: 0 <= k < |s| && member(s[k])
  {
    if s == [] then false
    else if member(s[0]) then true
    else
      var b := HasSome(s[1..], member);
      assert forall k :: 1 <= k < |s| ==> s[k] == s[1..][k - 1];
      b
  }

  /** The four password rules, in the order they are checked. */
  datatype Rule = Length | Upper | Number | Special

  const Rules: seq<Rule> := [Length, Upper, Number, Special]

  predicate Holds(rule: Rule, password: string) {
    match rule
    case Length => Utf16Length(password) >= 8
    case Upper => HasSome(password, IsUpper)
    case Number => HasSome(password, IsDigit)
    case Special => HasSome(password, IsSpecial)
  }

  function Message(rule: Rule): string {
    match rule
    case Length => "Password must be at least 8 characters"
    case Upper => "Password must contain at least one uppercase letter"
    case Number => "Password must contain at least one number"
    case Special => "Password must contain at least one special character (!@#$%^&*)"
  }

  /** A password the server accepts. */
  predicate Strong(password: string) {
    forall rule :: rule in Rules ==> Holds(rule, password)
  }

  /** The first rule, in checking order, that the password breaks. */
  function FirstBroken(password: string): (r: Option<Rule>)
    ensures r.None? <==> Strong(password)
    ensures r.Some? ==> r.value in Rules && !Holds(r.value, password)
    ensures r.Some? ==> forall i :: 0 <= i < |Rules| && Rules[i] == r.value ==>
                          forall j :: 0 <= j < i ==> Holds(Rules[j], password)
  {
    if !Holds(Length, password) then Some(Length)
    else if !Holds(Upper, password) then Some(Upper)
    else if !Holds(Number, password) then Some(Number)
    else if !Holds(Special, password) then Some(Special)
    else None
  }

  /** The validation chain of `register`: the e-mail first, then the
      password rules; the first failure alone is reported. */
  function Validate(email: string, password: string): (r: Option<string>)
    ensures r.None? <==> Patterns.EmailMatches(email) && Strong(password)
    ensures !Patterns.EmailMatches(email) ==> r == Some(InvalidEmail)
    ensures Patterns.EmailMatches(email) && r.Some? ==> r == Some(Message(FirstBroken(password).value))
  {
    if !Patterns.EmailMatches(email) then Some(InvalidEmail)
    else match FirstBroken(password)
      case None => None
      case Some(rule) => Some(Message(rule))
  }

  /** Every error message names exactly one cause. */
  lemma MessagesDistinct(a: Rule, b: Rule)
    ensures Message(a) == Message(b) <==> a == b
    ensures Message(a) != InvalidEmail
  {
    if a != b {
      assert Message(a)[29..33] != Message(b)[29..33] || |Message(a)| != |Message(b)|;
    }
  }

  /** A row of `users`; `password` holds the bcrypt hash. */
  datatype User = User(id: nat, email: string, password: string, name: Value)

  /** What `register` resolves with: no password. */
  datatype Account = Account(id: nat, email: string, name: Value)

  /** What `login` resolves with. */
  datatype Session = Session(token: string, user: Account)

  predicate UniqueEmails(users: seq<User>) {
    forall i, j :: 0 <= i < j < |users| ==> users[i].email != users[j].email
  }

  predicate Registered(users: seq<User>, email: string) {
    exists i :: 0 <= i < |users| && users[i].email == email
  }

  /** `SELECT * FROM users WHERE email = ?` */
  function Lookup(users: seq<User>, email: string): (r: Option<User>)
    ensures r.None? <==> !Registered(users, email)
    ensures r.Some? ==> r.value in users && r.value.email == email
  {
    if users == [] then None
    else if users[0].email == email then Some(users[0])
    else
      var r := Lookup(users[1..], email);
      assert forall i :: 1 <= i < |users| ==> users[i] == users[1..][i - 1];
      assert Registered(users[1..], email) ==> Registered(users, email);
      r
  }

  /** The login outcome once the user row has been looked up. */
  function LoginOutcome(found: Option<User>, password: string, compare: (string, string) -> bool,
                        sign: (nat, string) -> string): (r: Result<Session, string>)
    ensures r.Err? ==> r.error == BadLogin
    ensures r.Ok? <==> found.Some? && compare(password, found.value.password)
    ensures r.Ok? ==> r.value == Session(sign(found.value.id, found.value.email),
                                         Account(found.value.id, found.value.email, found.value.name))
  {
    match found
    case None => Err(BadLogin)
    case Some(user) =>
      if !compare(password, user.password) then Err(BadLogin)
      else Ok(Session(sign(user.id, user.email), Account(user.id, user.email, user.name)))
  }

  /** An unknown e-mail and a wrong password are told apart by nothing:
      both give the same error. */
  lemma LoginDoesNotRevealAccounts(users: seq<User>, email: string, password: string, other: string,
                                   compare: (string, string) -> bool, sign: (nat, string) -> string)
    requires !Registered(users, email)
    requires Lookup(users, other).Some? && !compare(password, Lookup(users, other).value.password)
    ensures LoginOutcome(Lookup(users, email), password, compare, sign)
            == LoginOutcome(Lookup(users, other), password, compare, sign)
            == Err(BadLogin)
  {
  }

  /** `verifyToken`: whatever jwt.verify rejects becomes one error. */
  function VerifyToken<Claims>(token: string, verify: string -> Option<Claims>): (r: Result<Claims, string>)
    ensures r.Ok? <==> verify(token).Some?
    ensures r.Ok? ==> r.value == verify(token).value
    ensures r.Err? ==> r.error == BadToken
  {
    match verify(token)
    case None => Err(BadToken)
    case Some(claims) => Ok(claims)
  }

  class UserTable {
    var users: seq<User>
    var nextId: nat

    ghost predicate Valid()
      reads this
    {
      && UniqueEmails(users)
      && nextId > 0
      && forall i :: 0 <= i < |users| ==> 0 < users[i].id < nextId
    }

    constructor ()
      ensures Valid() && users == [] && nextId == 1
    {
      users, nextId := [], 1;
    }

    /** `register`: validation, then the INSERT. `fault` is an error the
        database reports for a reason other than the e-mail column. */
    method Register(email: string, password: string, name: Value, hashed: string, fault: Option<string>)
      returns (r: Result<Account, string>)
      requires Valid()
      modifies this
      ensures Valid()
      ensures Validate(email, password).Some? ==> r == Err(Validate(email, password).value) && unchanged(this)
      ensures Validate(email, password).None? && old(Registered(users, email)) ==>
                r == Err(EmailTaken) && unchanged(this)
      ensures Validate(email, password).None? && !old(Registered(users, email)) && fault.Some? ==>
                r == Err(if Includes(fault.value, UniqueFailure) then EmailTaken else fault.value) && unchanged(this)
      ensures r.Ok? <==> Validate(email, password).None? && !old(Registered(users, email)) && fault.None?
      ensures r.Ok? ==> r.value == Account(old(nextId), email, name)
                        && users == old(users) + [User(old(nextId), email, hashed, name)]
                        && nextId == old(nextId) + 1
    {
      var problem := Validate(email, password);
      if problem.Some? {
        return Err(problem.value);
      }
      var existing := FindByEmail(email);
      if existing.Some? {
        return Err(EmailTaken);
      }
      if fault.Some? {
        return Err(if Includes(fault.value, UniqueFailure) then EmailTaken else fault.value);
      }
      r := Ok(Account(nextId, email, name));
      users := users + [User(nextId, email, hashed, name)];
      nextId := nextId + 1;
    }

    /** `login`: look the e-mail up, then compare the password with its
        hash. `fault` is an error of the SELECT. */
    method Login(email: string, password: string, compare: (string, string) -> bool,
                 sign: (nat, string) -> string, fault: Option<string>)
      returns (r: Result<Session, string>)
      ensures fault.Some? ==> r == Err(fault.value)
      ensures fault.None? ==> r == LoginOutcome(Lookup(users, email), password, compare, sign)
    {
      if fault.Some? {
        return Err(fault.value);
      }
      var found := FindByEmail(email);
      match found
      case None =>
        r := Err(BadLogin);
      case Some(user) =>
        if !compare(password, user.password) {
          r := Err(BadLogin);
        } else {
          var token := sign(user.id, user.email);
          r := Ok(Session(token, Account(user.id, user.email, user.name)));
        }
    }

    /** The first row with this e-mail, scanning the table. */
    method FindByEmail(email: string) returns (found: Option<User>)
      ensures found == Lookup(users, email)
    {
      var i := 0;
      while i < |users|
        invariant 0 <= i <= |users|
        invariant Lookup(users, email) == Lookup(users[i..], email)
      {
        if users[i].email == email {
          return Some(users[i]);
        }
        assert users[i..][1..] == users[i + 1..];
        i := i + 1;
      }
      return None;
    }
  }

  /** A successful registration followed by a login with the same
      password (bcrypt.compare accepting its own hash) yields the account
      that was registered. */
  lemma RegisterThenLogin(users: seq<User>, nextId: nat, email: string, password: string, name: Value, hashed: string,
                          compare: (string, string) -> bool, sign: (nat, string) -> string)
    requires UniqueEmails(users) && !Registered(users, email)
    requires compare(password, hashed)
    ensures var after := users + [User(nextId, email, hashed, name)];
            UniqueEmails(after)
            && LoginOutcome(Lookup(after, email), password, compare, sign)
               == Ok(Session(sign(nextId, email), Account(nextId, email, name)))
  {
    var after := users + [User(nextId, email, hashed, name)];
    LookupLast(users, User(nextId, email, hashed, name));
  }

  lemma {:induction false} LookupLast(users: seq<User>, user: User)
    requires !Registered(users, user.email)
    ensures Lookup(users + [user], user.email) == Some(user)
  {
    if users != [] {
      assert (users + [user])[1..] == users[1..] + [user];
      assert !Registered(users[1..], user.email) by {
        forall i | 0 <= i < |users[1..]|
          ensures users[1..][i].email != user.email
        {
          assert users[1..][i] == users[i + 1];
        }
      }
      LookupLast(users[1..], user);
    }
  }
}
