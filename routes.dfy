/**
 * The upload middleware and the handler of a route taken together
 * (routes/restaurantRoutes.js, routes/photographyRoutes.js): multer runs
 * first and its error, if any, goes to the error handler (500); otherwise the
 * handler sees the stored files.
 */
module Routes {
  import opened Optional
  import opened Http
  import opened Paths
  import opened Tables
  import opened Store
  import opened Upload
  import RestaurantController
  import PhotographyController

  /** `PUT /:id/photos/:photoId` with the uploader `u` in front of `updateGalleryPhoto`. */
  function ReplaceGalleryPhotoRoute(s: State, libs: Libs, u: Uploader, id: int, photoId: int, parts: seq<Part>): Reply
    requires Integrity(s)
  {
    var (s1, stored) := Receive(s, u, parts);
    assert Integrity(s1);
    if stored.None? then Reply(ServerError, s1)
    else RestaurantController.UpdateGalleryPhotoEffect(s1, libs, id, photoId, SingleFile(stored.value))
  }

  /** `POST /` with `uploadCover` in front of `createRestaurant`. */
  function CreateRestaurantRoute(s: State, libs: Libs, name: string, now: int, parts: seq<Part>): Reply
    requires Integrity(s)
  {
    var (s1, stored) := Receive(s, COVER, parts);
    assert Integrity(s1);
    if stored.None? then Reply(ServerError, s1)
    else RestaurantController.CreateRestaurantEffect(s1, libs, SingleFile(stored.value), name, now)
  }

  /** `POST /:id/photos` with `uploadGallery` in front of `addGalleryPhotos`. */
  function AddGalleryPhotosRoute(s: State, libs: Libs, id: int, now: int, parts: seq<Part>): Reply
    requires Integrity(s)
  {
    var (s1, stored) := Receive(s, GALLERY, parts);
    assert Integrity(s1);
    if stored.None? then Reply(ServerError, s1)
    else RestaurantController.AddGalleryPhotosEffect(s1, libs, id, stored.value, now)
  }

  /**
   * After a 201 from the gallery route, each kept file has its own new row,
   * and every new row names a file that is on disk.
   */
  lemma GalleryRowsNameStoredFiles(s: State, libs: Libs, id: int, now: int, parts: seq<Part>)
    requires Integrity(s)
    ensures var r := AddGalleryPhotosRoute(s, libs, id, now, parts);
      r.status == Created ==>
        && r.after.restaurantPhotos.next == s.restaurantPhotos.next + |KeptParts(GALLERY, parts)|
        && RestaurantController.RowsNameFiles(r.after.restaurantPhotos.rows, s.restaurantPhotos.next,
                                              r.after.restaurantPhotos.next, r.after.files)
  {
    var (s1, stored) := Receive(s, GALLERY, parts);
    if stored.Some? {
      var ups := stored.value;
      var kept := KeptParts(GALLERY, parts);
      assert RestaurantController.NoUploadIsOutput(ups) by {
        forall i, j | 0 <= i < |ups| && 0 <= j < |ups| && i != j
          ensures RestaurantController.NotOutputOf(ups, i, j)
        {
          var p := kept[i];
          assert ups[i] == Stored(GALLERY, p);
          StoredNameIsNotCompressed(p.millis, p.random, p.originalName, FilenameText(ups[j]));
        }
      }
      RestaurantController.AddedPhotosNameFilesOnDisk(s1, libs, id, ups, now);
    }
  }

  /** `POST /api/photography` with `uploadPhotography` in front of `uploadPhoto`. */
  function UploadPhotographyRoute(s: State, now: int, parts: seq<Part>): Reply
    requires Integrity(s)
  {
    var (s1, stored) := Receive(s, PHOTOGRAPHY, parts);
    assert Integrity(s1);
    if stored.None? then Reply(ServerError, s1)
    else PhotographyController.UploadPhotoEffect(s1, SingleFile(stored.value), now)
  }

  /** One image part in the uploader's field, within its limit. */
  predicate GoodPart(u: Uploader, p: Part) {
    p.field == u.field && FileFilter(p.mimetype) && (u.fileSize.None? || p.size <= u.fileSize.value)
  }

  lemma {:induction false} ReceiveOne(s: State, u: Uploader, p: Part)
    requires GoodPart(u, p) && u.maxCount >= 1
    ensures Receive(s, u, [p]).1 == Some([Stored(u, p)])
    ensures Receive(s, u, [p]).0 == s.(files := Write(s.files, u, [p]))
  {
    assert KeptParts(u, [p]) == [p] by {
      assert [p][1..] == [];
    }
    assert Admissible(u, p);
    assert forall q :: q in [p] ==> q == p;
    var stored := seq(|KeptParts(u, [p])|, i requires 0 <= i < |KeptParts(u, [p])| => Stored(u, KeptParts(u, [p])[i]));
    assert stored == [Stored(u, p)];
  }

  /**
   * As routed, replacing a gallery photo always fails: the single-photo
   * uploader keeps the file in memory, so there is no path to compress,
   * yet the old file has already been unlinked and the row still names it.
   */
  lemma ReplacePhotoAsRouted(s: State, libs: Libs, id: int, photoId: int, p: Part)
    requires Integrity(s) && id in s.restaurants.rows && RestaurantController.PhotoOf(s.restaurantPhotos, photoId, id)
    requires GoodPart(SINGLE_PHOTO, p)
    ensures var r := ReplaceGalleryPhotoRoute(s, libs, SINGLE_PHOTO, id, photoId, [p]);
      && r.status == ServerError
      && r.after.restaurantPhotos == s.restaurantPhotos
      && Resolve(s.restaurantPhotos.rows[photoId].imageUrl) !in r.after.files
  {
    ReceiveOne(s, SINGLE_PHOTO, p);
    assert Write(s.files, SINGLE_PHOTO, [p]) == s.files by {
      assert [p][1..] == [];
    }
  }

  /** The single-photo uploader the route evidently means: the gallery's storage, limit and filter, for field `photo`. */
  const SINGLE_PHOTO_ON_DISK := Uploader(DiskStorage(RESTAURANT_DIR), "photo", 1, Some(MAX_FILE_SIZE), true)

  /**
   * With the disk uploader, replacing a gallery photo succeeds whenever the
   * upload can be compressed: the row then names the compressed upload, which
   * is on disk.
   */
  lemma ReplacePhotoOnDisk(s: State, libs: Libs, id: int, photoId: int, p: Part)
    requires Integrity(s) && id in s.restaurants.rows && RestaurantController.PhotoOf(s.restaurantPhotos, photoId, id)
    requires GoodPart(SINGLE_PHOTO_ON_DISK, p)
    requires Resolve(s.restaurantPhotos.rows[photoId].imageUrl) != UploadPath(Stored(SINGLE_PHOTO_ON_DISK, p)).value
    requires RestaurantController.NeedsCompression(p.size) ==> libs.encodeJpeg75(Original(p.size)).Some?
    ensures var r := ReplaceGalleryPhotoRoute(s, libs, SINGLE_PHOTO_ON_DISK, id, photoId, [p]);
      && r.status == Ok
      && r.after.restaurantPhotos.rows[photoId].imageUrl == RestaurantController.CompressedUrl(Stored(SINGLE_PHOTO_ON_DISK, p))
      && Resolve(r.after.restaurantPhotos.rows[photoId].imageUrl) in r.after.files
  {
    var u := SINGLE_PHOTO_ON_DISK;
    var f := Stored(u, p);
    ReceiveOne(s, u, p);
    var path := UploadPath(f).value;
    assert Write(s.files, u, [p]) == s.files[path := Original(p.size)] by {
      assert [p][1..] == [];
    }
    CompressedPathDiffers(RESTAURANT_DIR, f.filename);
    ResolvePublicUrl(RESTAURANT_DIR, CompressedName(f.filename));
  }

  /**
   * A cover that is not an image is skipped by the filter, not refused by
   * multer: the handler sees no file and answers 422, and nothing was written.
   */
  lemma NonImageCoverIsSkipped(s: State, libs: Libs, name: string, now: int, p: Part)
    requires Integrity(s)
    requires p.field == "cover" && !FileFilter(p.mimetype)
    ensures CreateRestaurantRoute(s, libs, name, now, [p]) == Reply(Unprocessable, s)
  {
    assert KeptParts(COVER, [p]) == [] by {
      assert [p][1..] == [];
    }
    assert Write(s.files, COVER, []) == s.files;
  }

  /** A cover over 15 MiB is refused by multer (500) and the partial file removed: nothing changes. */
  lemma OversizedCoverIsRefused(s: State, libs: Libs, name: string, now: int, p: Part)
    requires Integrity(s)
    requires p.field == "cover" && FileFilter(p.mimetype) && p.size > MAX_FILE_SIZE
    ensures CreateRestaurantRoute(s, libs, name, now, [p]) == Reply(ServerError, s)
  {
    assert Take(COVER, [p], 1).accepted == [];
    assert WrittenPaths(COVER, []) == {};
  }

  /** A photography upload stores the URL of the very file multer wrote, which is on disk. */
  lemma PhotographyRowNamesStoredFile(s: State, now: int, p: Part)
    requires Integrity(s) && GoodPart(PHOTOGRAPHY, p)
    ensures var r := UploadPhotographyRoute(s, now, [p]);
      && r.status == Created
      && Resolve(r.after.photography.rows[s.photography.next].imageUrl) in r.after.files
  {
    ReceiveOne(s, PHOTOGRAPHY, p);
  }
}
