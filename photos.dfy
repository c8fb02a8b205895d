/**
  Value-level rules of a user's photo collection: what a photo record holds, what
  the image host and the controller answer, and the "main photo" invariant with
  the lemmas showing that adding, promoting and deleting keep it.
  The in-place operations themselves are in module UsersController.
 */
module Photos {
  import opened Wrappers

  /** The state of one `Photo` entity: its key, the address the image host serves
      it at, the host's identifier for it (null for photos the host does not
      know) and whether it is the user's main photo. */
  datatype PhotoInfo = PhotoInfo(id: int, url: string, publicId: Option<string>, isMain: bool)

  /** What the image host answers to an upload: the secure address and the
      identifier of the stored image, or the error it reported. */
  datatype UploadResult =
    | Uploaded(secureUrl: string, publicId: Option<string>)
    | UploadFailed(message: string)

  /** What the image host answers to a deletion request. */
  datatype DeletionResult = Deleted | DeletionFailed(message: string)

  /** The HTTP results the photo endpoints produce. */
  datatype Response =
    | Created(photo: PhotoInfo)
    | NoContent
    | Ok
    | NotFound(detail: Option<string>)
    | BadRequest(message: string)

  const UserNotFoundMessage := "No se encontr\U{f3} el usuario"
  const PhotoNotFoundMessage := "No se encontr\U{f3} la foto"
  const AlreadyMainMessage := "Esta ya es tu foto principal"
  const OperationFailedMessage := "No se pudo realizar la operaci\U{f3}n"
  const UploadNotSavedMessage := "No se pudo subir la foto"
  const CannotDeleteMainMessage := "No puedes borrar tu foto principal"
  const DeleteNotSavedMessage := "No se pudo borrar la foto"

  predicate IsMain(p: PhotoInfo) { p.isMain }

  /** The selector `photo => photo.Id == id`. */
  function HasId(id: int): PhotoInfo -> bool {
    (p: PhotoInfo) => p.id == id
  }

  /** `FirstOrDefault(f)`: the index of the first photo that satisfies `f`, if any. */
  function First(s: seq<PhotoInfo>, f: PhotoInfo -> bool): (r: Option<nat>)
    ensures r.Some? ==> r.value < |s| && f(s[r.value])
    ensures r.Some? ==> forall j :: 0 <= j < r.value ==> !f(s[j])
    ensures r.None? ==> forall j :: 0 <= j < |s| ==> !f(s[j])
  {
    if s == [] then None
    else if f(s[0]) then Some(0)
    else match First(s[1..], f)
      case None => None
      case Some(k) => Some(k + 1)
  }

  /** The number of photos flagged as main. */
  function MainCount(s: seq<PhotoInfo>): nat {
    if s == [] then 0 else (if s[0].isMain then 1 else 0) + MainCount(s[1..])
  }

  /** The invariant the controller is meant to keep: at most one main photo. */
  predicate AtMostOneMain(s: seq<PhotoInfo>) {
    MainCount(s) <= 1
  }

  /** The stronger invariant the three operations keep: a non-empty collection
      has exactly one main photo, an empty one has none. */
  predicate WellFormed(s: seq<PhotoInfo>) {
    MainCount(s) == if s == [] then 0 else 1
  }

  /** The collection after `SetMainPhoto` promotes the photo at `k`: the first
      main photo, if any, is demoted, then the photo at `k` is flagged. When the
      target was not main, it is now main, the first previous main photo is not,
      every other photo is as before, and no field other than `isMain` changes. */
  function Promoted(s: seq<PhotoInfo>, k: nat): (r: seq<PhotoInfo>)
    requires k < |s|
    ensures |r| == |s|
    ensures r[k].isMain
    ensures forall j :: 0 <= j < |s| ==> r[j] == s[j].(isMain := r[j].isMain)
    ensures !s[k].isMain && First(s, IsMain).Some? ==> !r[First(s, IsMain).value].isMain
    ensures forall j :: 0 <= j < |s| && j != k && Some(j) != First(s, IsMain) ==> r[j] == s[j]
  {
    var demoted := match First(s, IsMain)
      case None => s
      case Some(m) => s[m := s[m].(isMain := false)];
    demoted[k := demoted[k].(isMain := true)]
  }

  /** The collection after `Remove` takes out the photo at `k`. */
  function RemovedAt(s: seq<PhotoInfo>, k: nat): (r: seq<PhotoInfo>)
    requires k < |s|
    ensures |r| == |s| - 1
    ensures forall j :: 0 <= j < k ==> r[j] == s[j]
    ensures forall j :: k <= j < |r| ==> r[j] == s[j + 1]
    ensures multiset(r) + multiset{s[k]} == multiset(s)
  {
    assert s == s[..k] + [s[k]] + s[k + 1..];
    s[..k] + s[k + 1..]
  }

  lemma {:induction false} MainCountConcat(a: seq<PhotoInfo>, b: seq<PhotoInfo>)
    ensures MainCount(a + b) == MainCount(a) + MainCount(b)
  {
    if a == [] {
      assert a + b == b;
    } else {
      assert (a + b)[1..] == a[1..] + b;
      MainCountConcat(a[1..], b);
    }
  }

  /** The count splits around any position. */
  lemma MainCountAround(s: seq<PhotoInfo>, k: nat)
    requires k < |s|
    ensures MainCount(s) == MainCount(s[..k]) + (if s[k].isMain then 1 else 0) + MainCount(s[k + 1..])
  {
    assert s == s[..k] + ([s[k]] + s[k + 1..]);
    MainCountConcat(s[..k], [s[k]] + s[k + 1..]);
    MainCountConcat([s[k]], s[k + 1..]);
  }

  /** Replacing one photo changes the count by the change of its flag only. */
  lemma MainCountUpdate(s: seq<PhotoInfo>, k: nat, p: PhotoInfo)
    requires k < |s|
    ensures MainCount(s[k := p]) + (if s[k].isMain then 1 else 0) == MainCount(s) + (if p.isMain then 1 else 0)
  {
    var t := s[k := p];
    assert t[..k] == s[..k] && t[k + 1..] == s[k + 1..];
    MainCountAround(s, k);
    MainCountAround(t, k);
  }

  /** A collection with no main photo has every flag clear, and conversely. */
  lemma {:induction false} NoMainMeansCountZero(s: seq<PhotoInfo>)
    ensures MainCount(s) == 0 <==> First(s, IsMain).None?
  {
    if s != [] {
      NoMainMeansCountZero(s[1..]);
    }
  }

  /** AddPhoto: the appended photo is main exactly when the collection was
      empty, so the count grows from 0 to 1 or stays, and both invariants hold
      afterwards when they held before. */
  lemma AddKeepsInvariants(s: seq<PhotoInfo>, p: PhotoInfo)
    requires p.isMain == (s == [])
    ensures MainCount(s + [p]) == MainCount(s) + (if s == [] then 1 else 0)
    ensures AtMostOneMain(s) ==> AtMostOneMain(s + [p])
    ensures WellFormed(s) ==> WellFormed(s + [p])
  {
    MainCountConcat(s, [p]);
  }

  /** SetMainPhoto: promotion leaves max(1, count) main photos, so at most one
      before gives exactly one after. */
  lemma PromoteKeepsInvariants(s: seq<PhotoInfo>, k: nat)
    requires k < |s| && !s[k].isMain
    ensures MainCount(Promoted(s, k)) == if MainCount(s) == 0 then 1 else MainCount(s)
    ensures AtMostOneMain(s) ==> MainCount(Promoted(s, k)) == 1
    ensures WellFormed(s) ==> WellFormed(Promoted(s, k))
  {
    NoMainMeansCountZero(s);
    match First(s, IsMain)
    case None =>
      MainCountUpdate(s, k, s[k].(isMain := true));
    case Some(m) =>
      var demoted := s[m := s[m].(isMain := false)];
      MainCountUpdate(s, m, s[m].(isMain := false));
      MainCountUpdate(demoted, k, demoted[k].(isMain := true));
  }

  /** DeletePhoto: removing a photo that is not main keeps the count, so both
      invariants survive. */
  lemma RemoveKeepsInvariants(s: seq<PhotoInfo>, k: nat)
    requires k < |s| && !s[k].isMain
    ensures |RemovedAt(s, k)| == |s| - 1
    ensures MainCount(RemovedAt(s, k)) == MainCount(s)
    ensures AtMostOneMain(s) ==> AtMostOneMain(RemovedAt(s, k))
    ensures WellFormed(s) ==> WellFormed(RemovedAt(s, k))
  {
    MainCountAround(s, k);
    MainCountConcat(s[..k], s[k + 1..]);
  }
}
