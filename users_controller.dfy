/**
  The photo endpoints of the users controller, on the objects they change in
  place: the `Photo` entities, whose `IsMain` flag `SetMainPhoto` flips, and the
  user's photo list, which `AddPhoto` and `DeletePhoto` grow and shrink.
  The user is the one the repository loaded for the authenticated name (null
  when there is none); the image host's answer and the outcome of
  `SaveAllAsync` are inputs.
 */
module UsersController {
  import opened Wrappers
  import opened Photos

  class Photo {
    var id: int
    var url: string
    var publicId: Option<string>
    var isMain: bool

    /** `new Photo { Url = url, PublicId = publicId }`, with the key the store gives it. */
    constructor (id: int, url: string, publicId: Option<string>)
      ensures Info() == PhotoInfo(id, url, publicId, false)
    {
      this.id := id;
      this.url := url;
      this.publicId := publicId;
      this.isMain := false;
    }

    function Info(): PhotoInfo
      reads this
    {
      PhotoInfo(id, url, publicId, isMain)
    }
  }

  class AppUser {
    var photos: seq<Photo>

    /** The list holds each photo entity once. */
    ghost predicate Valid()
      reads this
    {
      forall i, j :: 0 <= i < j < |photos| ==> photos[i] != photos[j]
    }

    /** The photos' current values, in list order. */
    function View(): (v: seq<PhotoInfo>)
      reads this, photos
      ensures |v| == |photos|
      ensures forall i :: 0 <= i < |photos| ==> v[i] == photos[i].Info()
    {
      seq(|photos|, i reads this, photos requires 0 <= i < |photos| => photos[i].Info())
    }
  }

  /** `AddPhoto`: after a successful upload, appends a new photo that is main
      exactly when the list was empty; an upload error changes nothing. The
      list keeps its appended photo even when saving fails. */
  method AddPhoto(user: AppUser?, upload: UploadResult, newId: int, saved: bool) returns (r: Response)
    requires user != null ==> user.Valid()
    modifies user
    ensures user == null ==> r == NotFound(None)
    ensures user != null ==> user.Valid()
    ensures user != null && upload.UploadFailed? ==>
      r == BadRequest(upload.message) && user.photos == old(user.photos)
    ensures user != null && upload.Uploaded? ==>
      var added := PhotoInfo(newId, upload.secureUrl, upload.publicId, old(user.photos) == []);
      && |user.photos| == |old(user.photos)| + 1
      && user.photos[..|old(user.photos)|] == old(user.photos)
      && fresh(user.photos[|old(user.photos)|])
      && user.View() == old(user.View()) + [added]
      && r == (if saved then Created(added) else BadRequest(UploadNotSavedMessage))
    ensures user != null ==> (AtMostOneMain(old(user.View())) ==> AtMostOneMain(user.View()))
    ensures user != null ==> (WellFormed(old(user.View())) ==> WellFormed(user.View()))
  {
    if user == null {
      return NotFound(None);
    }
    if upload.UploadFailed? {
      return BadRequest(upload.message);
    }
    var photo := new Photo(newId, upload.secureUrl, upload.publicId);
    if |user.photos| == 0 {
      photo.isMain := true;
    }
    ghost var before := user.View();
    user.photos := user.photos + [photo];
    assert user.View() == before + [photo.Info()];
    AddKeepsInvariants(before, photo.Info());
    if saved {
      r := Created(photo.Info());
    } else {
      r := BadRequest(UploadNotSavedMessage);
    }
  }

  /** `SetMainPhoto`: promotes the first photo with the given key: demotes the
      first main photo, if any, and flags the target. A missing photo or one
      that is already main changes nothing. */
  method SetMainPhoto(user: AppUser?, photoId: int, saved: bool) returns (r: Response)
    requires user != null ==> user.Valid()
    modifies if user == null then [] else user.photos
    ensures user == null ==> r == NotFound(Some(UserNotFoundMessage))
    ensures user != null ==> user.Valid() && user.photos == old(user.photos)
    ensures user != null ==>
      match First(old(user.View()), HasId(photoId))
      case None =>
        r == NotFound(Some(PhotoNotFoundMessage)) && user.View() == old(user.View())
      case Some(k) =>
        if old(user.View())[k].isMain then
          r == BadRequest(AlreadyMainMessage) && user.View() == old(user.View())
        else
          && user.View() == Promoted(old(user.View()), k)
          && r == (if saved then NoContent else BadRequest(OperationFailedMessage))
    ensures user != null ==> (AtMostOneMain(old(user.View())) ==> AtMostOneMain(user.View()))
    ensures user != null ==> (WellFormed(old(user.View())) ==> WellFormed(user.View()))
  {
    if user == null {
      return NotFound(Some(UserNotFoundMessage));
    }
    ghost var before := user.View();
    var found := First(user.View(), HasId(photoId));
    if found.None? {
      return NotFound(Some(PhotoNotFoundMessage));
    }
    var newMain := user.photos[found.value];
    if newMain.isMain {
      return BadRequest(AlreadyMainMessage);
    }
    var current := First(user.View(), IsMain);
    ghost var demoted := before;
    if current.Some? {
      user.photos[current.value].isMain := false;
      demoted := before[current.value := before[current.value].(isMain := false)];
    }
    assert user.View() == demoted;
    newMain.isMain := true;
    assert user.View() == Promoted(before, found.value);
    PromoteKeepsInvariants(before, found.value);
    if saved {
      r := NoContent;
    } else {
      r := BadRequest(OperationFailedMessage);
    }
  }

  /** `DeletePhoto`: refuses a missing or main photo; asks the image host to
      delete the image when the photo has a host identifier (`hostRequest`
      carries it), and keeps the photo when the host reports an error;
      otherwise removes the photo from the list. */
  method DeletePhoto(user: AppUser, photoId: int, remote: DeletionResult, saved: bool)
    returns (r: Response, hostRequest: Option<string>)
    requires user.Valid()
    modifies user
    ensures user.Valid()
    ensures
      match First(old(user.View()), HasId(photoId))
      case None =>
        r == NotFound(None) && hostRequest == None && user.photos == old(user.photos)
      case Some(k) =>
        if old(user.View())[k].isMain then
          r == BadRequest(CannotDeleteMainMessage) && hostRequest == None && user.photos == old(user.photos)
        else
          && hostRequest == old(user.View())[k].publicId
          && if hostRequest.Some? && remote.DeletionFailed? then
               r == BadRequest(remote.message) && user.photos == old(user.photos)
             else
               && user.photos == old(user.photos[..k] + user.photos[k + 1..])
               && user.View() == RemovedAt(old(user.View()), k)
               && r == (if saved then Ok else BadRequest(DeleteNotSavedMessage))
    ensures AtMostOneMain(old(user.View())) ==> AtMostOneMain(user.View())
    ensures WellFormed(old(user.View())) ==> WellFormed(user.View())
  {
    hostRequest := None;
    ghost var before := user.View();
    var found := First(user.View(), HasId(photoId));
    if found.None? {
      return NotFound(None), None;
    }
    var k := found.value;
    var photo := user.photos[k];
    if photo.isMain {
      return BadRequest(CannotDeleteMainMessage), None;
    }
    if photo.publicId.Some? {
      hostRequest := photo.publicId;
      if remote.DeletionFailed? {
        return BadRequest(remote.message), hostRequest;
      }
    }
    user.photos := user.photos[..k] + user.photos[k + 1..];
    assert user.View() == RemovedAt(before, k);
    RemoveKeepsInvariants(before, k);
    if saved {
      r := Ok;
    } else {
      r := BadRequest(DeleteNotSavedMessage);
    }
  }
}
