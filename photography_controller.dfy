/**
 * controllers/photographyController.js: photography photos, stored as
 * uploaded in `uploads/photography` with no recompression.
 */
module PhotographyController {
  import opened Optional
  import opened Http
  import opened Paths
  import opened Tables
  import opened Store
  import opened Upload

  /** The URL `uploadPhoto` stores: `/uploads/photography/<filename>`. */
  function PhotographyUrl(f: ReqFile): string {
    PublicUrl(PHOTOGRAPHY_DIR, FilenameText(f))
  }

  /**
   * `uploadPhoto`: 422 without a file; otherwise one row pointing at the file
   * as multer stored it. The file store is not touched.
   */
  function UploadPhotoEffect(s: State, file: Option<ReqFile>, now: int): (r: Reply)
    requires Integrity(s)
    ensures file.None? ==> r == Reply(Unprocessable, s)
    ensures file.Some? ==>
              && r.status == Created
              && r.after.photography.next == s.photography.next + 1
              && r.after.photography.rows == s.photography.rows[s.photography.next := PhotographyPhoto(PhotographyUrl(file.value), now)]
    ensures file.Some? && file.value.DiskFile? && file.value.destination == PHOTOGRAPHY_DIR ==>
              Resolve(r.after.photography.rows[s.photography.next].imageUrl) == UploadPath(file.value).value
    ensures r.after == s.(photography := r.after.photography)
    ensures Integrity(r.after)
  {
    if file.None? then Reply(Unprocessable, s)
    else
      ResolvePublicUrl(PHOTOGRAPHY_DIR, FilenameText(file.value));
      Reply(Created, s.(photography := Insert(s.photography, PhotographyPhoto(PhotographyUrl(file.value), now))))
  }

  method UploadPhoto(db: Backend, file: Option<ReqFile>, now: int) returns (status: Status)
    requires Integrity(db.Snapshot())
    modifies db
    ensures Reply(status, db.Snapshot()) == UploadPhotoEffect(old(db.Snapshot()), file, now)
  {
    if file.None? {
      return Unprocessable;
    }
    var _ := db.CreatePhotography(PhotographyPhoto(PhotographyUrl(file.value), now));
    status := Created;
  }

  /**
   * `deletePhoto`: 404 for an unknown id. The unlink is not guarded, so a
   * missing file throws (500) before the row is destroyed; otherwise the file
   * and then the row are removed.
   */
  function DeletePhotoEffect(s: State, photoId: int): (r: Reply)
    requires Integrity(s)
    ensures photoId !in s.photography.rows ==> r == Reply(NotFound, s)
    ensures photoId in s.photography.rows && Resolve(s.photography.rows[photoId].imageUrl) !in s.files ==>
              r == Reply(ServerError, s)
    ensures r.status == Ok <==> photoId in s.photography.rows && Resolve(s.photography.rows[photoId].imageUrl) in s.files
    ensures r.status == Ok ==>
              && r.after.files == s.files - {Resolve(s.photography.rows[photoId].imageUrl)}
              && r.after.photography.rows == s.photography.rows - {photoId}
    ensures r.after.photography.next == s.photography.next
    ensures r.after == s.(files := r.after.files, photography := r.after.photography)
    ensures Integrity(r.after)
  {
    if photoId !in s.photography.rows then Reply(NotFound, s)
    else
      var p := Resolve(s.photography.rows[photoId].imageUrl);
      if p !in s.files then Reply(ServerError, s)
      else Reply(Ok, s.(files := s.files - {p}, photography := Without(s.photography, photoId)))
  }

  method DeletePhoto(db: Backend, photoId: int) returns (status: Status)
    requires Integrity(db.Snapshot())
    modifies db
    ensures Reply(status, db.Snapshot()) == DeletePhotoEffect(old(db.Snapshot()), photoId)
  {
    var photo := FindByPk(db.photography, photoId);
    if photo.None? {
      return NotFound;
    }
    var ok := db.Unlink(Resolve(photo.value.imageUrl));
    if !ok {
      return ServerError;
    }
    db.DestroyPhotography(photoId);
    status := Ok;
  }

  /** A photo whose file is already gone can never be deleted: every attempt answers 500 and keeps the row. */
  lemma MissingFileBlocksDelete(s: State, photoId: int)
    requires Integrity(s) && photoId in s.photography.rows
    requires Resolve(s.photography.rows[photoId].imageUrl) !in s.files
    ensures var r := DeletePhotoEffect(s, photoId);
      r.status == ServerError && r.after == s && photoId in r.after.photography.rows
  {
  }

  /** `getAllPhotos`: the ids of all photography photos, each once, newest first. */
  function AllPhotos(s: State): (ks: seq<int>)
    requires Integrity(s)
    ensures multiset(ks) == multiset(Where(s.photography, (p: PhotographyPhoto) => true))
    ensures forall k :: k in ks <==> k in s.photography.rows
    ensures NewestFirstOrder(s.photography, ks, (p: PhotographyPhoto) => p.createdAt)
    ensures Distinct(ks)
  {
    var all := Where(s.photography, (p: PhotographyPhoto) => true);
    var ks := NewestFirst(s.photography, all, (p: PhotographyPhoto) => p.createdAt);
    assert forall k :: k in ks <==> k in multiset(ks);
    DistinctRearranged(ks, all);
    ks
  }
}
