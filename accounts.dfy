/** The account routes: sign-up with the administrator code, and the two
    request password-reset flow (issue a token by e-mail address, then
    validate and redeem it), as a state machine over the table of users. */
module Accounts {
  import opened Wrappers
  import opened UserModel

  /** The code that makes a new account an administrator. */
  const AdminCode: string := "secretcode1234"

  /** How long a reset token stays valid, in milliseconds (one hour). */
  const ResetWindow: int := 3600000

  /** How many random bytes a reset token is made of. */
  const TokenBytes: nat := 20

  type Byte = b: int | 0 <= b < 256

  // ---------------------------------------------------------------------------
  // Reset tokens: `buf.toString('hex')`
  // ---------------------------------------------------------------------------

  predicate IsLowerHex(c: char) {
    '0' <= c <= '9' || 'a' <= c <= 'f'
  }

  function NibbleValue(c: char): (n: int)
    requires IsLowerHex(c)
    ensures 0 <= n < 16
  {
    if c <= '9' then c as int - '0' as int else c as int - 'a' as int + 10
  }

  function HexDigit(n: int): (c: char)
    requires 0 <= n < 16
    ensures IsLowerHex(c) && NibbleValue(c) == n
  {
    if n < 10 then ('0' as int + n) as char else ('a' as int + n - 10) as char
  }

  /** Lower-case hexadecimal, two digits per byte, high nibble first. */
  function Hex(bytes: seq<Byte>): (s: string)
    ensures |s| == 2 * |bytes|
    ensures forall i :: 0 <= i < |s| ==> IsLowerHex(s[i])
  {
    if bytes == [] then ""
    else [HexDigit(bytes[0] / 16), HexDigit(bytes[0] % 16)] + Hex(bytes[1..])
  }

  /** Reads lower-case hexadecimal back into bytes. */
  function Unhex(s: string): seq<Byte>
    requires |s| % 2 == 0 && forall i :: 0 <= i < |s| ==> IsLowerHex(s[i])
    decreases |s|
  {
    if s == "" then []
    else [16 * NibbleValue(s[0]) + NibbleValue(s[1])] + Unhex(s[2..])
  }

  lemma {:induction false} UnhexHex(bytes: seq<Byte>)
    ensures Unhex(Hex(bytes)) == bytes
  {
    if bytes != [] {
      UnhexHex(bytes[1..]);
      var s := Hex(bytes);
      assert s[2..] == Hex(bytes[1..]);
      assert 16 * NibbleValue(s[0]) + NibbleValue(s[1]) == bytes[0];
    }
  }

  /** Distinct byte strings give distinct tokens. */
  lemma HexInjective(a: seq<Byte>, b: seq<Byte>)
    requires a != b
    ensures Hex(a) != Hex(b)
  {
    UnhexHex(a);
    UnhexHex(b);
  }

  /** The token made of the 20 random bytes. */
  function ResetToken(random: seq<Byte>): (token: string)
    requires |random| == TokenBytes
    ensures |token| == 40 && forall i :: 0 <= i < |token| ==> IsLowerHex(token[i])
  {
    Hex(random)
  }

  // ---------------------------------------------------------------------------
  // The table of users and its lookups
  // ---------------------------------------------------------------------------

  /** The schema's `unique` indexes on `username` and `email`. */
  predicate UniqueIdentities(users: seq<User>) {
    forall i, j :: 0 <= i < j < |users| ==>
      users[i].username != users[j].username && users[i].email != users[j].email
  }

  /** The user holds `token` and its expiry is strictly later than `now`. */
  predicate HoldsLiveToken(u: User, token: string, now: int) {
    u.resetPasswordToken == Some(token) &&
    u.resetPasswordExpires.Some? && u.resetPasswordExpires.value > now
  }

  /** The filters the handlers query the table with. */
  datatype Query =
    | ByUsername(username: string)
    | ByEmail(email: string)
    | ByLiveToken(token: string, now: int)

  predicate Matches(u: User, q: Query) {
    match q
    case ByUsername(name) => u.username == name
    case ByEmail(email) => u.email == email
    case ByLiveToken(token, now) => HoldsLiveToken(u, token, now)
  }

  /** `User.findOne(filter)`: the first user, in table order, that the filter
      matches, or none when no user matches. */
  function FindOne(users: seq<User>, q: Query): (found: Option<nat>)
    ensures found.Some? ==> found.value < |users| && Matches(users[found.value], q)
    ensures found.Some? ==> forall j :: 0 <= j < found.value ==> !Matches(users[j], q)
    ensures found.None? <==> forall j :: 0 <= j < |users| ==> !Matches(users[j], q)
  {
    if users == [] then None
    else if Matches(users[0], q) then Some(0)
    else match FindOne(users[1..], q)
      case None => None
      case Some(k) => Some(k + 1)
  }

  /** Two tables of the same length that a filter matches at the same
      positions give the same answer to it. */
  lemma FindOneAgrees(a: seq<User>, b: seq<User>, q: Query)
    requires |a| == |b|
    requires forall j :: 0 <= j < |a| ==> (Matches(a[j], q) <==> Matches(b[j], q))
    ensures FindOne(a, q) == FindOne(b, q)
  {
  }

  // ---------------------------------------------------------------------------
  // Sign-up
  // ---------------------------------------------------------------------------

  /** The document the sign-up handler builds: the submitted fields with the
      schema's defaults, and `isAdmin` raised exactly when the submitted
      administrator code is the fixed one. */
  function SignupUser(username: string, email: string, avatar: Option<string>,
                      bio: Option<string>, admincode: Option<string>): (u: User)
    ensures u.isAdmin <==> admincode == Some(AdminCode)
    ensures u.username == username && u.email == email && u.avatar == avatar
    ensures u.bio == (if bio.Some? then bio.value else DefaultBio)
    ensures u.resetPasswordToken.None? && u.resetPasswordExpires.None?
    ensures u.password.None? && u.credential.None?
  {
    var newUser := NewUser(username, email, avatar, bio, None);
    if admincode == Some(AdminCode) then newUser.(isAdmin := true) else newUser
  }

  datatype RegisterError = UserExists | DuplicateEmail

  /** `User.register(newUser, password)`: refused when the username or the
      e-mail address is taken (the username is checked first), otherwise the
      user is stored with the hash of the password. */
  function Registered(users: seq<User>, newUser: User, password: string)
    : (r: Result<seq<User>, RegisterError>)
    ensures r == Failure(UserExists) <==>
      exists j :: 0 <= j < |users| && users[j].username == newUser.username
    ensures r == Failure(DuplicateEmail) <==>
      (forall j :: 0 <= j < |users| ==> users[j].username != newUser.username) &&
      (exists j :: 0 <= j < |users| && users[j].email == newUser.email)
    ensures r.Success? ==>
      r.value == users + [newUser.(credential := Some(SaltedHashOf(password)))]
    ensures r.Success? && UniqueIdentities(users) ==> UniqueIdentities(r.value)
  {
    if FindOne(users, ByUsername(newUser.username)).Some? then Failure(UserExists)
    else if FindOne(users, ByEmail(newUser.email)).Some? then Failure(DuplicateEmail)
    else Success(users + [newUser.(credential := Some(SaltedHashOf(password)))])
  }

  // ---------------------------------------------------------------------------
  // Password reset
  // ---------------------------------------------------------------------------

  /** `after` is `before` with only user `i`'s two reset fields set. */
  predicate ResetIssued(before: seq<User>, after: seq<User>, i: nat, token: string, expires: int) {
    |after| == |before| && i < |before| &&
    after[i] == before[i].(resetPasswordToken := Some(token), resetPasswordExpires := Some(expires)) &&
    forall j :: 0 <= j < |before| && j != i ==> after[j] == before[j]
  }

  /** `after` is `before` with only user `i`'s credential replaced by the hash
      of `password` and both of its reset fields cleared. */
  predicate PasswordReset(before: seq<User>, after: seq<User>, i: nat, password: string) {
    |after| == |before| && i < |before| &&
    after[i] == before[i].(credential := Some(SaltedHashOf(password)),
                           resetPasswordToken := None, resetPasswordExpires := None) &&
    forall j :: 0 <= j < |before| && j != i ==> after[j] == before[j]
  }

  datatype IssueError = NoAccount

  /** POST /forgot: the user with the e-mail address gets the token made of
      `random` and an expiry one hour after `now`. */
  function Issued(users: seq<User>, email: string, random: seq<Byte>, now: int)
    : (r: Result<seq<User>, IssueError>)
    requires |random| == TokenBytes
    ensures r.Failure? <==> forall j :: 0 <= j < |users| ==> users[j].email != email
    ensures r.Failure? ==> r.error == NoAccount
    ensures r.Success? ==>
      var i := FindOne(users, ByEmail(email)).value;
      users[i].email == email && ResetIssued(users, r.value, i, ResetToken(random), now + ResetWindow)
    ensures r.Success? && UniqueIdentities(users) ==> UniqueIdentities(r.value)
  {
    match FindOne(users, ByEmail(email))
    case None => Failure(NoAccount)
    case Some(i) =>
      Success(users[i := users[i].(resetPasswordToken := Some(ResetToken(random)),
                                   resetPasswordExpires := Some(now + ResetWindow))])
  }

  datatype RedeemError = InvalidToken | PasswordMismatch

  /** POST /reset/:token: the token must be held unexpired by some user, then
      the two passwords must agree; on success that user's password is
      replaced and both reset fields are cleared. */
  function Redeemed(users: seq<User>, token: string, now: int, password: string, confirm: string)
    : (r: Result<seq<User>, RedeemError>)
    ensures r == Failure(InvalidToken) <==>
      forall j :: 0 <= j < |users| ==> !HoldsLiveToken(users[j], token, now)
    ensures r == Failure(PasswordMismatch) <==>
      (exists j :: 0 <= j < |users| && HoldsLiveToken(users[j], token, now)) && password != confirm
    ensures r.Success? ==> password == confirm
    ensures r.Success? ==>
      var i := FindOne(users, ByLiveToken(token, now)).value;
      HoldsLiveToken(users[i], token, now) && PasswordReset(users, r.value, i, password)
    ensures r.Success? && UniqueIdentities(users) ==> UniqueIdentities(r.value)
  {
    match FindOne(users, ByLiveToken(token, now))
    case None => Failure(InvalidToken)
    case Some(i) =>
      if password == confirm then
        Success(users[i := users[i].(credential := Some(SaltedHashOf(password)),
                                     resetPasswordToken := None, resetPasswordExpires := None)])
      else Failure(PasswordMismatch)
  }

  /** No user of the table holds `token`, live or expired. */
  predicate TokenUnused(users: seq<User>, token: string) {
    forall j :: 0 <= j < |users| ==> users[j].resetPasswordToken != Some(token)
  }

  /** At most one user of the table holds `token`. */
  predicate TokenUnshared(users: seq<User>, token: string) {
    forall i, j ::
      (0 <= i < |users| && 0 <= j < |users| &&
       users[i].resetPasswordToken == Some(token) && users[j].resetPasswordToken == Some(token)) ==> i == j
  }

  /** A token issued at time `t` validates, for the user it was issued to,
      exactly while `now < t + 3600000`. */
  lemma IssueOpensWindow(users: seq<User>, email: string, random: seq<Byte>, t: int, now: int)
    requires |random| == TokenBytes
    requires Issued(users, email, random, t).Success?
    requires TokenUnused(users, ResetToken(random))
    ensures var after := Issued(users, email, random, t).value;
      var found := FindOne(after, ByLiveToken(ResetToken(random), now));
      (found.Some? <==> now < t + ResetWindow) &&
      (found.Some? ==> found == FindOne(users, ByEmail(email)) && after[found.value].email == email)
  {
    var after := Issued(users, email, random, t).value;
    var token := ResetToken(random);
    var i := FindOne(users, ByEmail(email)).value;
    var found := FindOne(after, ByLiveToken(token, now));
    forall j | 0 <= j < |after| && j != i
      ensures !HoldsLiveToken(after[j], token, now)
    {
      assert after[j] == users[j];
    }
    assert HoldsLiveToken(after[i], token, now) <==> now < t + ResetWindow;
    if found.Some? {
      assert found.value == i;
    }
  }

  /** With unique addresses, the first user with an address is the only one:
      every user holding that address is the one `findOne` returns. */
  lemma UniqueEmailIsFound(users: seq<User>, email: string)
    requires UniqueIdentities(users)
    ensures forall j :: 0 <= j < |users| && users[j].email == email ==>
      FindOne(users, ByEmail(email)) == Some(j)
  {
  }

  /** On a table with unique addresses, the token issued for an address
      validates for the account with that address exactly while
      `now < t + 3600000`. */
  lemma IssueOpensWindowForTheAccount(users: seq<User>, email: string, random: seq<Byte>, t: int, now: int)
    requires |random| == TokenBytes
    requires UniqueIdentities(users)
    requires Issued(users, email, random, t).Success?
    requires TokenUnused(users, ResetToken(random))
    ensures forall j :: 0 <= j < |users| && users[j].email == email ==>
      ((FindOne(Issued(users, email, random, t).value, ByLiveToken(ResetToken(random), now)) == Some(j))
       <==> now < t + ResetWindow)
  {
    IssueOpensWindow(users, email, random, t, now);
    UniqueEmailIsFound(users, email);
  }

  /** Issuing again for the same address replaces the token: the earlier
      token no longer validates at any time. */
  lemma ReissueRevokesEarlier(users: seq<User>, email: string, r1: seq<Byte>, t1: int,
                              r2: seq<Byte>, t2: int, now: int)
    requires |r1| == TokenBytes && |r2| == TokenBytes && r1 != r2
    requires Issued(users, email, r1, t1).Success?
    requires TokenUnused(users, ResetToken(r1))
    ensures var mid := Issued(users, email, r1, t1).value;
      Issued(mid, email, r2, t2).Success? &&
      FindOne(Issued(mid, email, r2, t2).value, ByLiveToken(ResetToken(r1), now)).None?
  {
    var mid := Issued(users, email, r1, t1).value;
    var i := FindOne(users, ByEmail(email)).value;
    assert mid[i].email == email;
    FindOneAgrees(users, mid, ByEmail(email));
    var last := Issued(mid, email, r2, t2).value;
    HexInjective(r1, r2);
    forall j | 0 <= j < |last|
      ensures !HoldsLiveToken(last[j], ResetToken(r1), now)
    {
      if j != i {
        assert last[j] == users[j];
      }
    }
  }

  /** A successful redemption uses the token up: afterwards it validates at
      no time, and redeeming it again fails as invalid. */
  lemma RedeemIsSingleUse(users: seq<User>, token: string, now: int, password: string,
                          later: int, password': string, confirm': string)
    requires TokenUnshared(users, token)
    requires Redeemed(users, token, now, password, password).Success?
    ensures var after := Redeemed(users, token, now, password, password).value;
      FindOne(after, ByLiveToken(token, later)).None? &&
      Redeemed(after, token, later, password', confirm') == Failure(InvalidToken)
  {
    var after := Redeemed(users, token, now, password, password).value;
    var i := FindOne(users, ByLiveToken(token, now)).value;
    forall j | 0 <= j < |after|
      ensures !HoldsLiveToken(after[j], token, later)
    {
      if j != i {
        assert after[j] == users[j];
        assert users[i].resetPasswordToken == Some(token);
      }
    }
  }

  /** The whole flow: a token issued at `t` and presented before `t + 3600000`
      with matching passwords sets the password of the user with that address,
      and from then on the token validates at no time. */
  lemma IssueThenRedeem(users: seq<User>, email: string, random: seq<Byte>, t: int,
                        now: int, password: string, later: int)
    requires |random| == TokenBytes
    requires Issued(users, email, random, t).Success?
    requires TokenUnused(users, ResetToken(random))
    requires now < t + ResetWindow
    ensures var mid := Issued(users, email, random, t).value;
      var done := Redeemed(mid, ResetToken(random), now, password, password);
      var i := FindOne(users, ByEmail(email)).value;
      done.Success? && done.value[i].email == email &&
      done.value[i].credential == Some(SaltedHashOf(password)) &&
      FindOne(done.value, ByLiveToken(ResetToken(random), later)).None?
  {
    var mid := Issued(users, email, random, t).value;
    var token := ResetToken(random);
    IssueOpensWindow(users, email, random, t, now);
    var i := FindOne(users, ByEmail(email)).value;
    assert TokenUnshared(mid, token) by {
      forall j | 0 <= j < |mid| && j != i
        ensures mid[j].resetPasswordToken != Some(token)
      {
        assert mid[j] == users[j];
      }
    }
    RedeemIsSingleUse(mid, token, now, password, later, password, password);
  }

  // ---------------------------------------------------------------------------
  // The handlers, over the stored table
  // ---------------------------------------------------------------------------

  /** The users collection. Each handler reads it, updates one document in
      place and saves it back. */
  class UserStore {
    var users: seq<User>

    ghost predicate Valid()
      reads this
    {
      UniqueIdentities(users)
    }

    constructor ()
      ensures Valid() && users == []
    {
      users := [];
    }

    /** POST /register. The body performs `Registered` step by step on the
        stored table. */
    method Register(username: string, email: string, avatar: Option<string>, bio: Option<string>,
                    admincode: Option<string>, password: string) returns (r: Result<nat, RegisterError>)
      requires Valid()
      modifies this
      ensures Valid()
      ensures var expected := Registered(old(users), SignupUser(username, email, avatar, bio, admincode), password);
        (r.Success? <==> expected.Success?) &&
        (r.Success? ==> r.value == |old(users)| && users == expected.value) &&
        (r.Failure? ==> r.error == expected.error && users == old(users))
    {
      var newUser := NewUser(username, email, avatar, bio, None);
      if admincode == Some(AdminCode) {
        newUser := newUser.(isAdmin := true);
      }
      if FindOne(users, ByUsername(username)).Some? {
        return Failure(UserExists);
      }
      if FindOne(users, ByEmail(email)).Some? {
        return Failure(DuplicateEmail);
      }
      users := users + [newUser.(credential := Some(SaltedHashOf(password)))];
      r := Success(|users| - 1);
    }

    /** POST /forgot, with the 20 random bytes and the clock passed in; the
        e-mail that follows does not change the table. The body performs
        `Issued` step by step on the stored table. */
    method Issue(email: string, random: seq<Byte>, now: int) returns (r: Result<string, IssueError>)
      requires Valid() && |random| == TokenBytes
      modifies this
      ensures Valid()
      ensures var expected := Issued(old(users), email, random, now);
        (r.Success? <==> expected.Success?) &&
        (r.Success? ==> r.value == ResetToken(random) && users == expected.value) &&
        (r.Failure? ==> r.error == NoAccount && users == old(users))
    {
      var token := ResetToken(random);
      var found := FindOne(users, ByEmail(email));
      if found.None? {
        return Failure(NoAccount);
      }
      var user := users[found.value];
      user := user.(resetPasswordToken := Some(token));
      user := user.(resetPasswordExpires := Some(now + ResetWindow));
      users := users[found.value := user];
      r := Success(token);
    }

    /** GET /reset/:token: the user whose token it is, if it has not expired. */
    method Validate(token: string, now: int) returns (holder: Option<nat>)
      ensures holder.Some? ==> holder.value < |users| && HoldsLiveToken(users[holder.value], token, now)
      ensures holder.None? <==> forall j :: 0 <= j < |users| ==> !HoldsLiveToken(users[j], token, now)
    {
      holder := FindOne(users, ByLiveToken(token, now));
    }

    /** POST /reset/:token; the confirmation e-mail does not change the table.
        The body performs `Redeemed` step by step on the stored table. */
    method Redeem(token: string, now: int, password: string, confirm: string)
      returns (r: Result<nat, RedeemError>)
      requires Valid()
      modifies this
      ensures Valid()
      ensures var expected := Redeemed(old(users), token, now, password, confirm);
        (r.Success? <==> expected.Success?) &&
        (r.Success? ==> users == expected.value &&
                        Some(r.value) == FindOne(old(users), ByLiveToken(token, now))) &&
        (r.Failure? ==> r.error == expected.error && users == old(users))
    {
      var found := FindOne(users, ByLiveToken(token, now));
      if found.None? {
        return Failure(InvalidToken);
      }
      if password != confirm {
        return Failure(PasswordMismatch);
      }
      var user := users[found.value];
      user := user.(credential := Some(SaltedHashOf(password)));
      user := user.(resetPasswordToken := None, resetPasswordExpires := None);
      users := users[found.value := user];
      r := Success(found.value);
    }
  }
}
