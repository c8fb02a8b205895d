# CitasApp core: photo collection and credential check, in Dafny

This project models the two backend controllers of CitasApp that hold real logic.

- **Photo endpoints** (`UsersController`). Three operations change one user's
  ordered list of `Photo` entities in place: `AddPhoto`, `SetMainPhoto` and
  `DeletePhoto`. `Photo` is a class. `SetMainPhoto` flips the `isMain` field of
  existing photo objects. `AddPhoto` and `DeletePhoto` reassign the user's
  `photos` sequence. The property proved throughout is "at most one photo is
  main". Each operation keeps it. So does the stronger "a non-empty collection
  has exactly one main photo".
- **Account endpoints** (`AccountController`). A `UserTable` class holds the
  stored credential records.
  - `Register` runs the duplicate check `ValidateUser` and then appends a record.
  - `Login` looks up the user case-insensitively, the way `SingleOrDefault` does.
    It then recomputes the keyed hash and compares the bytes in a loop that
    returns at the first mismatch.

Modules:

- `Photos` (photos.dfy): photo values, the host and HTTP results, `First`
  (`FirstOrDefault`), the main-photo count and the invariant lemmas.
- `UsersController` (users_controller.dfy): classes `Photo` and `AppUser` and
  the three photo endpoints.
- `Credentials` (credentials.dfy): the credential record, ASCII `ToLower`,
  `Lookup`, `ValidateUser`, `Authenticate` (what a login answers), and the
  round-trip and duplicate-name lemmas.
- `AccountController` (account_controller.dfy): class `UserTable` with
  `Register` and `Login`.
- `Wrappers` (wrappers.dfy): `Option`.

Collaborators the model cannot see are inputs:

- the image host's upload and deletion answers (`UploadResult`, `DeletionResult`);
- the outcome of `SaveAllAsync` (`saved`);
- the key the store gives a new photo (`newId`);
- the random key of a fresh HMAC (`key`);
- HMAC-SHA512, `Encoding.UTF8.GetBytes` and the token service's `CreateToken`
  (the `Services` record). HMAC-SHA512 is only known to be a function, so it
  is deterministic, and to return 64-byte digests.

Two behaviours of the code are stated as written:

- The byte comparison at API/Controllers/AccountController.cs:62-65 returns at
  the first mismatching byte, so it is not constant-time.
  `AccountController.UserTable.Login` states that position (`stoppedAt`).
- `Login` expects at most one name to match up to case (`SingleOrDefault`,
  API/Controllers/AccountController.cs:53). The duplicate check at
  API/Controllers/AccountController.cs:75 compares the stored name only with
  the lowercased input. See Findings.

## Model

| member | source | states |
|---|---|---|
| `Photos.First` | API/Controllers/UsersControllers.cs:83-87 | `FirstOrDefault`: the returned index satisfies the selector and no earlier photo does; no index means no photo satisfies it |
| `Photos.MainCountConcat` | API/Controllers/UsersControllers.cs:66-67 | the number of main photos of a concatenation is the sum of the parts' numbers |
| `Photos.NoMainMeansCountZero` | API/Controllers/UsersControllers.cs:87-88 | the search for the current main photo finds none exactly when no photo is main |
| `Photos.AddKeepsInvariants` | API/Controllers/UsersControllers.cs:66-67 | appending a photo that is main exactly when the list was empty raises the main count from 0 to 1 or leaves it; at-most-one-main and exactly-one-main-when-non-empty are kept |
| `Photos.Promoted` | API/Controllers/UsersControllers.cs:87-89 | after promotion the target is main, the first previous main photo is not (when the target was not main), and every other photo is unchanged; no field other than `isMain` changes and the length is kept |
| `Photos.RemovedAt` | API/Controllers/UsersControllers.cs:110 | `Remove` takes out exactly the photo at the index: the list is one shorter, the photos before and after it keep their order, and the multiset of photos loses just that one |
| `Photos.PromoteKeepsInvariants` | API/Controllers/UsersControllers.cs:85-89 | promoting a non-main photo leaves max(1, previous count) main photos: exactly one if at most one was main before |
| `Photos.RemoveKeepsInvariants` | API/Controllers/UsersControllers.cs:103-110 | removing a non-main photo shortens the list by one and keeps the main count, so both invariants survive |
| `UsersController.AddPhoto` | API/Controllers/UsersControllers.cs:54-76 | null user gives NotFound; an upload error gives BadRequest with the host's message and leaves the list alone; otherwise one fresh photo is appended, main exactly when the list was empty, with earlier photos unchanged; the save outcome only picks Created or BadRequest; both invariants are kept |
| `UsersController.SetMainPhoto` | API/Controllers/UsersControllers.cs:77-94 | null user or missing photo gives NotFound with its message; an already-main target gives BadRequest and changes nothing; otherwise the first main photo is demoted and the first photo with the key is promoted, whatever the save outcome; both invariants are kept |
| `UsersController.DeletePhoto` | API/Controllers/UsersControllers.cs:96-114 | missing photo gives NotFound; a main photo is refused; the host is asked to delete exactly when the photo has a `PublicId`, and its error leaves the list alone; otherwise exactly that photo is removed; both invariants are kept |
| `Credentials.ToLower` | API/Controllers/AccountController.cs:54 | lowercasing keeps the length and lowercases each ASCII letter in place |
| `Credentials.ToLowerIdempotent` | API/Controllers/AccountController.cs:75 | lowercasing twice is lowercasing once |
| `Credentials.Lookup` | API/Controllers/AccountController.cs:53-54 | `SingleOrDefault`: no row when no stored name matches up to case; a single row that matches and is the only match; or two distinct matching rows, where it throws |
| `Credentials.NewUser` | API/Controllers/AccountController.cs:32-37 | the new record keeps the name as given and the HMAC key as salt, and recomputing the hash from that salt and the same password gives back the stored hash (its 64-byte length comes from the `Hmac` type) |
| `Credentials.LoginSucceedsIffHashReproduced` | API/Controllers/AccountController.cs:53-71 | login issues a token exactly when one stored name matches up to case and the password re-derives that user's stored hash |
| `Credentials.UnknownUserLooksLikeWrongPassword` | API/Controllers/AccountController.cs:18-64 | an unknown name and a wrong password get the same Unauthorized answer with the same message |
| `Credentials.ValidateUser` | API/Controllers/AccountController.cs:73-76 | the name is refused exactly when some stored name, as stored, equals the lowercased input; every name it refuses also matches a stored name up to case |
| `Credentials.ComputedHash` | API/Controllers/AccountController.cs:58-60 | the recomputed hash is a 64-byte digest; against a 64-byte stored hash, the loop's byte-by-byte agreement is exactly equality of the two hashes |
| `Credentials.Authenticate` | API/Controllers/AccountController.cs:53-71 | what a login answers: never BadRequest; Fault exactly when two rows match; every Unauthorized carries the one shared message; no match gives Unauthorized; a token is issued only for the single matching record, and only when the password re-derives its stored hash |
| `Credentials.RegisterThenLogin` | API/Controllers/AccountController.cs:25-72 | after registering a name that matches no stored name up to case, `ValidateUser` lets it through, and logging in under any spelling of it with the same password issues a token for the new record |
| `Credentials.LowercaseNameRefusedTwice` | API/Controllers/AccountController.cs:28 | a name already in lower case is refused the second time it is registered |
| `Credentials.DuplicateRegistrationAccepted` | API/Controllers/AccountController.cs:73-76 | with "Alice" stored, `ValidateUser` accepts "Alice" again, and a login as "alice" then finds two rows |
| `Credentials.CorrectedCheckKeepsNamesUnique` | API/Controllers/AccountController.cs:28 | with the case-insensitive check, registration keeps stored names unique up to case, and the login lookup never finds two rows |
| `AccountController.UserTable.Register` | API/Controllers/AccountController.cs:25-47 | "Username is taken" and an unchanged table exactly when a stored name equals the lowercased input; otherwise exactly one record is appended (name as given, salt = key, hash = keyed hash of the password bytes) and a token is issued for it |
| `AccountController.UserTable.Login` | API/Controllers/AccountController.cs:50-72 | the answer is `Authenticate`'s; the comparison loop stops at the first mismatching byte, or runs to the digest length when every byte agrees |

## Left out

- HMAC-SHA512, the generation of the HMAC key, `Encoding.UTF8` and `CreateToken` are foreign cryptography and library calls. They are the `Services` parameters and the `key` input.
- The claim that changing one bit of the password changes the outcome is left out. It rests on the hash resisting collisions, which an opaque function cannot express.
- `ToLower` covers ASCII letters only. .NET's culture-sensitive Unicode case mapping is not modelled.
- The image host client (`_photoService`) is left out. Only its success or error answer is modelled.
- Repository loading, `SaveAllAsync`, `SaveChangesAsync` and async/await are I/O. The save is a boolean input that only picks the HTTP answer. In-memory changes stay when it fails, as in the code. `Register` ignores the result of `SaveChangesAsync`, as the code does.
- A new photo's `Id` is the `newId` input, set when the photo is created. The model does not show the store assigning it during the save.
- `Register` and `Login` work on the in-memory table. The lookup's translation to SQL (and the database collation) is not modelled.
- `AccountController.UserTable.Login` requires every stored hash to be 64 bytes long. The code would index past a shorter stored hash. In this model only `Register` writes the table, and it keeps that length.
- `UsersController.DeletePhoto` requires a non-null user. The code dereferences the user without a check, so a missing user is a crash path, not a modelled answer.
- `UpdateUser`, `GetUsers` and `GetUser` are left out. They are mapping and repository pass-throughs with no logic of their own.
- Races are left out: between `ValidateUser` and the insert, and between concurrent photo edits. The code does not guard against them.
- The Angular front end (services, components, the member type) is left out. It is UI state and HTTP wiring.
- Aliasing is covered for photos: the list holds distinct photo objects. The account side's `UserRecord` is a value, because the controller only creates and reads it. `UserRecord` and the class `UsersController.AppUser` are two views of the one `AppUser` entity: its credential columns and its photo list.

## Findings

| source | as written | input that shows it | evidently intended | confidence | as-written member | corrected member |
|---|---|---|---|---|---|---|
| API/Controllers/AccountController.cs:73-76 | the duplicate check compares the stored name, as stored, with the lowercased input, while `Register` stores the input as given | register "Alice" twice: the second check compares "Alice" with "alice" and accepts; a later login as "alice" finds two rows and `SingleOrDefault` throws | refuse a name that equals a stored name up to case, so names stay unique up to case and a login finds at most one row | high, not executed | `Credentials.DuplicateRegistrationAccepted` | `Credentials.CorrectedCheckKeepsNamesUnique` |
