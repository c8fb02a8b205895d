/**
  The account endpoints on the user table they read and grow: `Register`
  checks for a duplicate and adds a credential record, `Login` looks the user
  up case-insensitively and compares the recomputed hash byte by byte,
  leaving at the first mismatch. The fresh HMAC key is an input.
 */
module AccountController {
  import opened Credentials

  class UserTable {
    var users: seq<UserRecord>

    ghost predicate Valid()
      reads this
    {
      HashesWellSized(users)
    }

    constructor ()
      ensures Valid() && users == []
    {
      users := [];
    }

    /** `Register`: refuses the name when `ValidateUser` finds a stored name
        equal to its lowercased form; otherwise stores the name as given with
        `key` as salt and the keyed hash of the password, and issues a token. */
    method Register(userName: string, password: string, key: Bytes, svc: Services) returns (r: AccountResponse)
      requires Valid()
      modifies this
      ensures Valid()
      ensures ValidateUser(old(users), userName) ==>
        r == BadRequest(UsernameTakenMessage) && users == old(users)
      ensures !ValidateUser(old(users), userName) ==>
        && users == old(users) + [NewUser(userName, password, key, svc)]
        && r == Issued(UserDto(userName, svc.createToken(NewUser(userName, password, key, svc))))
    {
      if ValidateUser(users, userName) {
        return BadRequest(UsernameTakenMessage);
      }
      var user := UserRecord(userName, svc.hmac(key, svc.utf8(password)), key);
      users := users + [user];
      r := Issued(UserDto(user.userName, svc.createToken(user)));
    }

    /** `Login`: answers as `Authenticate` says. When one user matches,
        `stoppedAt` is the position where the comparison loop left: the first
        mismatching byte, or the digest length when all bytes agree. */
    method Login(userName: string, password: string, svc: Services)
      returns (r: AccountResponse, ghost stoppedAt: nat)
      requires Valid()
      ensures r == Authenticate(users, userName, password, svc)
      ensures Lookup(users, userName).Single? ==>
        var u := users[Lookup(users, userName).index];
        var computed := ComputedHash(u, password, svc);
        && stoppedAt <= |computed|
        && (forall i :: 0 <= i < stoppedAt ==> computed[i] == u.passwordHash[i])
        && (r.Issued? <==> stoppedAt == |computed|)
        && (r.Unauthorized? ==> computed[stoppedAt] != u.passwordHash[stoppedAt])
    {
      stoppedAt := 0;
      var found := Lookup(users, userName);
      match found
      case NoMatch =>
        return Unauthorized(UserPasswordErrorMessage), 0;
      case Multiple(_, _) =>
        return Fault, 0;
      case Single(k) =>
        var user := users[k];
        var computedHash := svc.hmac(user.passwordSalt, svc.utf8(password));
        var i := 0;
        while i < |computedHash|
          invariant i <= |computedHash|
          invariant forall j :: 0 <= j < i ==> computedHash[j] == user.passwordHash[j]
        {
          if computedHash[i] != user.passwordHash[i] {
            return Unauthorized(UserPasswordErrorMessage), i;
          }
          i := i + 1;
        }
        stoppedAt := i;
        r := Issued(UserDto(user.userName, svc.createToken(user)));
    }
  }
}
