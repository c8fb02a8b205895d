/**
  Value-level rules of the account endpoints: the stored credential record,
  the case-insensitive user lookup behind `Login`, the duplicate check behind
  `Register`, and what a login answers. The keyed hash, the UTF-8 encoder and
  the token service are opaque collaborators passed in as `Services`.
 */
module Credentials {

  newtype byte = x: int | 0 <= x < 256

  type Bytes = seq<byte>

  /** The length in bytes of an HMAC-SHA512 digest. */
  const HashLength := 64

  /** HMAC-SHA512 keyed by its first argument (RFC 2104 over SHA-512 of
      FIPS 180-4). The model knows only that it is a function, hence
      deterministic, and that its digests are 64 bytes long. */
  type Hmac = f: (Bytes, Bytes) -> Bytes | forall key, data :: |f(key, data)| == HashLength
    witness (key: Bytes, data: Bytes) => seq(HashLength, i => 0 as byte)

  /** The credential columns of the `AppUser` entity (its photo list is the
      class `UsersController.AppUser`). */
  datatype UserRecord = UserRecord(userName: string, passwordHash: Bytes, passwordSalt: Bytes)

  datatype UserDto = UserDto(username: string, token: string)

  /** The collaborators the controller calls: the keyed hash, `Encoding.UTF8.GetBytes`
      and the token service's `CreateToken`. */
  datatype Services = Services(hmac: Hmac, utf8: string -> Bytes, createToken: UserRecord -> string)

  /** The results of the account endpoints; `Fault` is the unhandled exception
      `SingleOrDefault` throws when more than one row matches. */
  datatype AccountResponse =
    | Issued(dto: UserDto)
    | Unauthorized(message: string)
    | BadRequest(message: string)
    | Fault

  const UserPasswordErrorMessage := "Usuario o password incorrecta"
  const UsernameTakenMessage := "Username is taken"

  /** `char.ToLower`, restricted to ASCII letters. */
  function LowerChar(c: char): char {
    if 'A' <= c <= 'Z' then (c as int + 32) as char else c
  }

  /** `string.ToLower`, restricted to ASCII letters. */
  function ToLower(s: string): (r: string)
    ensures |r| == |s|
    ensures forall i :: 0 <= i < |s| ==> r[i] == LowerChar(s[i])
  {
    if s == [] then [] else [LowerChar(s[0])] + ToLower(s[1..])
  }

  lemma ToLowerIdempotent(s: string)
    ensures ToLower(ToLower(s)) == ToLower(s)
  {
    assert forall i :: 0 <= i < |s| ==> ToLower(ToLower(s))[i] == ToLower(s)[i];
  }

  /** The login filter `x.UserName.ToLower() == name.ToLower()`. */
  predicate NameMatches(u: UserRecord, name: string) {
    ToLower(u.userName) == ToLower(name)
  }

  /** What `SingleOrDefault` sees: no row, exactly one row (at `index`), or a
      second matching row, at which it throws. */
  datatype Match = NoMatch | Single(index: nat) | Multiple(first: nat, second: nat)

  /** `Users.SingleOrDefault(x => x.UserName.ToLower() == name.ToLower())`. */
  function Lookup(users: seq<UserRecord>, name: string): (r: Match)
    ensures r.NoMatch? <==> forall i :: 0 <= i < |users| ==> !NameMatches(users[i], name)
    ensures r.Single? ==> r.index < |users| && NameMatches(users[r.index], name)
    ensures r.Single? ==> forall j :: 0 <= j < |users| && j != r.index ==> !NameMatches(users[j], name)
    ensures r.Multiple? ==>
      r.first < r.second < |users| && NameMatches(users[r.first], name) && NameMatches(users[r.second], name)
  {
    if users == [] then NoMatch
    else
      var rest := Lookup(users[1..], name);
      assert forall j :: 1 <= j < |users| ==> users[j] == users[1..][j - 1];
      match rest
      case NoMatch => if NameMatches(users[0], name) then Single(0) else NoMatch
      case Single(k) => if NameMatches(users[0], name) then Multiple(0, k + 1) else Single(k + 1)
      case Multiple(i, j) => Multiple(i + 1, j + 1)
  }

  /** `ValidateUser`: `Users.Any(x => x.UserName == username.ToLower())`; the
      stored name is compared as stored, only the input is lowercased. */
  function ValidateUser(users: seq<UserRecord>, userName: string): (taken: bool)
    ensures taken <==> exists i :: 0 <= i < |users| && users[i].userName == ToLower(userName)
    ensures taken ==> NameTaken(users, userName)
  {
    ToLowerIdempotent(userName);
    exists i :: 0 <= i < |users| && users[i].userName == ToLower(userName)
  }

  /** Every stored hash is a full HMAC-SHA512 digest; `Register` keeps this. */
  predicate HashesWellSized(users: seq<UserRecord>) {
    forall i :: 0 <= i < |users| ==> |users[i].passwordHash| == HashLength
  }

  /** The record `Register` stores: the name as given, the key of a fresh
      HMAC as salt and the keyed hash of the password's UTF-8 bytes. */
  function NewUser(userName: string, password: string, key: Bytes, svc: Services): (u: UserRecord)
    ensures u.userName == userName && u.passwordSalt == key
    ensures ComputedHash(u, password, svc) == u.passwordHash
  {
    UserRecord(userName, svc.hmac(key, svc.utf8(password)), key)
  }

  /** The hash `Login` recomputes from the stored salt and the given password. */
  function ComputedHash(u: UserRecord, password: string, svc: Services): (h: Bytes)
    ensures |h| == HashLength
    ensures |u.passwordHash| == HashLength ==> (BytesAgree(h, u.passwordHash) <==> h == u.passwordHash)
  {
    svc.hmac(u.passwordSalt, svc.utf8(password))
  }

  /** The loop's verdict: every byte of the computed hash equals the stored byte
      at the same position. */
  predicate BytesAgree(computed: Bytes, stored: Bytes)
    requires |computed| <= |stored|
  {
    forall i :: 0 <= i < |computed| ==> computed[i] == stored[i]
  }

  /** What `Login` answers. */
  function Authenticate(users: seq<UserRecord>, userName: string, password: string, svc: Services): (r: AccountResponse)
    requires HashesWellSized(users)
    ensures !r.BadRequest?
    ensures r.Fault? <==> Lookup(users, userName).Multiple?
    ensures r.Unauthorized? ==> r.message == UserPasswordErrorMessage
    ensures Lookup(users, userName).NoMatch? ==> r.Unauthorized?
    ensures r.Issued? ==>
      && Lookup(users, userName).Single?
      && var u := users[Lookup(users, userName).index];
         r.dto == UserDto(u.userName, svc.createToken(u)) && ComputedHash(u, password, svc) == u.passwordHash
  {
    match Lookup(users, userName)
    case NoMatch => Unauthorized(UserPasswordErrorMessage)
    case Multiple(_, _) => Fault
    case Single(k) =>
      if BytesAgree(ComputedHash(users[k], password, svc), users[k].passwordHash) then
        Issued(UserDto(users[k].userName, svc.createToken(users[k])))
      else
        Unauthorized(UserPasswordErrorMessage)
  }

  /** Login succeeds exactly when one stored name matches case-insensitively and
      the password re-derives that user's stored hash. */
  lemma LoginSucceedsIffHashReproduced(users: seq<UserRecord>, userName: string, password: string, svc: Services)
    requires HashesWellSized(users)
    ensures Authenticate(users, userName, password, svc).Issued? <==>
      Lookup(users, userName).Single? &&
      ComputedHash(users[Lookup(users, userName).index], password, svc) == users[Lookup(users, userName).index].passwordHash
  {
    match Lookup(users, userName)
    case Single(k) =>
      var c := ComputedHash(users[k], password, svc);
      if BytesAgree(c, users[k].passwordHash) {
        assert c == users[k].passwordHash;
      }
    case _ =>
  }

  /** An unknown name and a wrong password get the same answer, so a caller
      cannot tell which of the two it was. */
  lemma UnknownUserLooksLikeWrongPassword(
    users: seq<UserRecord>, unknown: string, anyPassword: string,
    known: string, wrongPassword: string, svc: Services)
    requires HashesWellSized(users)
    requires Lookup(users, unknown).NoMatch?
    requires Lookup(users, known).Single?
    requires ComputedHash(users[Lookup(users, known).index], wrongPassword, svc) != users[Lookup(users, known).index].passwordHash
    ensures Authenticate(users, unknown, anyPassword, svc) == Authenticate(users, known, wrongPassword, svc)
    ensures Authenticate(users, unknown, anyPassword, svc) == Unauthorized(UserPasswordErrorMessage)
  {
    LoginSucceedsIffHashReproduced(users, known, wrongPassword, svc);
  }

  /** The case-insensitive duplicate check registration is meant to make: some
      stored name equals the new one up to case. */
  predicate NameTaken(users: seq<UserRecord>, userName: string) {
    exists i :: 0 <= i < |users| && NameMatches(users[i], userName)
  }

  /** No two stored names are equal up to case. */
  predicate UniqueNames(users: seq<UserRecord>) {
    forall i, j :: 0 <= i < j < |users| ==> ToLower(users[i].userName) != ToLower(users[j].userName)
  }

  /** Round trip: after registering a name no stored name matches up to case,
      logging in under any spelling of it with the same password succeeds. */
  lemma RegisterThenLogin(
    users: seq<UserRecord>, userName: string, password: string, key: Bytes,
    svc: Services, loginName: string)
    requires HashesWellSized(users)
    requires !NameTaken(users, userName)
    requires ToLower(loginName) == ToLower(userName)
    ensures !ValidateUser(users, userName)
    ensures HashesWellSized(users + [NewUser(userName, password, key, svc)])
    ensures Authenticate(users + [NewUser(userName, password, key, svc)], loginName, password, svc)
         == Issued(UserDto(userName, svc.createToken(NewUser(userName, password, key, svc))))
  {
    var after := users + [NewUser(userName, password, key, svc)];
    assert NameMatches(after[|users|], loginName);
    assert forall i :: 0 <= i < |users| ==> after[i] == users[i];
    assert forall i :: 0 <= i < |users| ==> !NameMatches(after[i], loginName);
    assert Lookup(after, loginName) == Single(|users|);
  }

  /** As written, the duplicate check does refuse a second registration of a
      name that is already all lower case. */
  lemma LowercaseNameRefusedTwice(users: seq<UserRecord>, userName: string, password: string, key: Bytes, svc: Services)
    requires ToLower(userName) == userName
    ensures ValidateUser(users + [NewUser(userName, password, key, svc)], userName)
  {
    var after := users + [NewUser(userName, password, key, svc)];
    assert after[|users|].userName == ToLower(userName);
  }

  /** As written, `ValidateUser` lets a name containing a capital letter be
      registered twice, and a login under that name then finds two rows. */
  lemma DuplicateRegistrationAccepted(first: UserRecord, password: string, key: Bytes, svc: Services)
    requires first.userName == "Alice"
    ensures !ValidateUser([first], "Alice")
    ensures Lookup([first] + [NewUser("Alice", password, key, svc)], "alice").Multiple?
  {
    assert ToLower("Alice")[0] == 'a';
    assert ToLower("alice") == ToLower("Alice");
  }

  /** With the case-insensitive check, registration keeps the stored names
      unique up to case, so the login lookup never finds two rows. */
  lemma CorrectedCheckKeepsNamesUnique(users: seq<UserRecord>, u: UserRecord, loginName: string)
    requires UniqueNames(users)
    requires !NameTaken(users, u.userName)
    ensures UniqueNames(users + [u])
    ensures !Lookup(users + [u], loginName).Multiple?
  {
    var after := users + [u];
    assert forall i :: 0 <= i < |users| ==> after[i] == users[i];
    forall i, j | 0 <= i < j < |after|
      ensures ToLower(after[i].userName) != ToLower(after[j].userName)
    {
      if j == |users| {
        assert !NameMatches(users[i], u.userName);
      }
    }
  }
}
