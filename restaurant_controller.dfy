/**
 * controllers/restaurantController.js: restaurants with a cover image and a
 * gallery of photos, whose files live in `uploads/restaurants`.
 *
 * Each handler is a method on the shared `Backend`, making the same calls
 * into the file system and the tables as the source, in the same order. Its
 * postcondition ties the status it answers and the state it leaves to a
 * function of the state it started from (`...Effect`), and the properties of
 * the handler are proved about that function.
 */
module RestaurantController {
  import opened Optional
  import opened Http
  import opened Paths
  import opened Tables
  import opened Store
  import opened Upload

  /** 5 MiB: larger files are re-encoded. */
  const COMPRESS_THRESHOLD: nat := 5 * 1024 * 1024

  /** The test `size / (1024 * 1024) > 5` of `compressImageIfNeeded`, on a whole number of bytes. */
  function NeedsCompression(size: nat): (r: bool)
    ensures r <==> (size as real) / (1024.0 * 1024.0) > 5.0
  {
    size > COMPRESS_THRESHOLD
  }

  /** Where `compressImageIfNeeded` puts an upload: `uploads/restaurants/compressed-<filename>`. */
  function CompressedPath(f: ReqFile): Path {
    Join(RESTAURANT_DIR, CompressedName(FilenameText(f)))
  }

  /** The URL the handlers store for that file. */
  function CompressedUrl(f: ReqFile): string {
    PublicUrl(RESTAURANT_DIR, CompressedName(FilenameText(f)))
  }

  /**
   * `compressImageIfNeeded(input, output)` on the file store: `false` when it
   * throws (no input path, no such file, or sharp refusing), with the file
   * store as it was; otherwise the input is gone and the output holds either a
   * q75 JPEG of the input (over 5 MiB) or the input itself (moved unchanged).
   */
  function CompressEffect(files: map<Path, Blob>, encode: Blob -> Option<nat>, input: Option<Path>, output: Path): (r: (bool, map<Path, Blob>))
    ensures !r.0 ==> r.1 == files
    ensures r.0 <==> input.Some? && input.value in files
                     && (NeedsCompression(files[input.value].size) ==> input.value != output && encode(files[input.value]).Some?)
    ensures r.0 ==> output in r.1 && (input.value != output ==> input.value !in r.1)
    ensures r.0 && NeedsCompression(files[input.value].size) ==>
              r.1[output] == Jpeg75(files[input.value], encode(files[input.value]).value)
    ensures r.0 && !NeedsCompression(files[input.value].size) ==> r.1[output] == files[input.value]
    ensures r.0 ==> forall p :: p != input.value && p != output ==> (p in r.1 <==> p in files) && (p in files ==> r.1[p] == files[p])
  {
    if input.None? || input.value !in files then (false, files)
    else if NeedsCompression(files[input.value].size) then
      var w := SharpToFile(files, encode, input.value, output);
      if !w.0 then (false, files) else (true, w.1 - {input.value})
    else RenameSync(files, input.value, output)
  }

  /** `compressImageIfNeeded`; `ok` is false when it throws. */
  method CompressImageIfNeeded(db: Backend, input: Option<Path>, output: Path) returns (ok: bool)
    modifies db
    ensures var c := CompressEffect(old(db.files), db.libs.encodeJpeg75, input, output);
      ok == c.0 && db.Snapshot() == old(db.Snapshot()).(files := c.1)
  {
    if input.None? {
      return false;
    }
    var size := db.Stat(input.value);
    if size.None? {
      return false;
    }
    if NeedsCompression(size.value) {
      ok := db.WriteJpeg75(input.value, output);
      if !ok {
        return;
      }
      ok := db.Unlink(input.value);
    } else {
      ok := db.Rename(input.value, output);
    }
  }

  /** A restaurant already has this slug (`Restaurant.findOne({ where: { slug } })` finds one). */
  predicate SlugInUse(t: Table<Restaurant>, slug: string) {
    exists k :: k in t.rows && t.rows[k].slug == slug
  }

  // ----- createRestaurant -----

  /**
   * `createRestaurant`: a cover file, then a name, then an unused slug are
   * required (422, 422, 409); then the upload is compressed and the row
   * inserted, either of which may throw (500).
   */
  function CreateRestaurantEffect(s: State, libs: Libs, file: Option<ReqFile>, name: string, now: int): (r: Reply)
    requires Integrity(s)
    ensures file.None? ==> r == Reply(Unprocessable, s)
    ensures file.Some? && name == "" ==> r == Reply(Unprocessable, s)
    ensures file.Some? && name != "" && SlugInUse(s.restaurants, libs.slugify(name)) ==> r == Reply(Conflict, s)
    ensures r.status in {Created, Unprocessable, Conflict, ServerError}
    ensures r.status == Created <==>
              && file.Some? && RestaurantNameOk(name) && !SlugInUse(s.restaurants, libs.slugify(name))
              && CompressEffect(s.files, libs.encodeJpeg75, UploadPath(file.value), CompressedPath(file.value)).0
    ensures r.status == Created ==>
              && r.after.restaurants.next == s.restaurants.next + 1
              && r.after.restaurants.rows == s.restaurants.rows[s.restaurants.next :=
                   Restaurant(name, libs.slugify(name), CompressedUrl(file.value), now)]
              && CompressedPath(file.value) in r.after.files
    ensures file.Some? && name != "" && !SlugInUse(s.restaurants, libs.slugify(name)) ==>
              r.after.files == CompressEffect(s.files, libs.encodeJpeg75, UploadPath(file.value), CompressedPath(file.value)).1
    ensures r.status != Created ==> r.after.restaurants == s.restaurants
    ensures r.after == s.(files := r.after.files, restaurants := r.after.restaurants)
    ensures Integrity(r.after)
  {
    if file.None? || name == "" then Reply(Unprocessable, s)
    else
      var slug := libs.slugify(name);
      if FindOne(s.restaurants, (x: Restaurant) => x.slug == slug).Some? then Reply(Conflict, s)
      else
        var c := CompressEffect(s.files, libs.encodeJpeg75, UploadPath(file.value), CompressedPath(file.value));
        var s1 := s.(files := c.1);
        if !c.0 then Reply(ServerError, s1)
        else match RestaurantCreate(s.restaurants, Restaurant(name, slug, CompressedUrl(file.value), now))
          case None => Reply(ServerError, s1)
          case Some(t) => Reply(Created, s1.(restaurants := t))
  }

  method CreateRestaurant(db: Backend, file: Option<ReqFile>, name: string, now: int) returns (status: Status)
    requires Integrity(db.Snapshot())
    modifies db
    ensures Reply(status, db.Snapshot()) == CreateRestaurantEffect(old(db.Snapshot()), db.libs, file, name, now)
  {
    if file.None? || name == "" {
      return Unprocessable;
    }
    var slug := db.libs.slugify(name);
    if FindOne(db.restaurants, (x: Restaurant) => x.slug == slug).Some? {
      return Conflict;
    }
    var ok := CompressImageIfNeeded(db, UploadPath(file.value), CompressedPath(file.value));
    if !ok {
      return ServerError;
    }
    var id := db.CreateRestaurant(Restaurant(name, slug, CompressedUrl(file.value), now));
    status := if id.Some? then Created else ServerError;
  }

  /**
   * A rejected create leaves the upload multer already wrote where it is:
   * nothing removes it.
   */
  lemma CreateRejectionKeepsUpload(s: State, libs: Libs, f: ReqFile, name: string, now: int)
    requires Integrity(s) && UploadPath(f).Some? && UploadPath(f).value in s.files
    requires name == "" || SlugInUse(s.restaurants, libs.slugify(name))
    ensures var r := CreateRestaurantEffect(s, libs, Some(f), name, now);
      r.status in {Unprocessable, Conflict} && UploadPath(f).value in r.after.files && r.after.files == s.files
  {
  }

  // ----- updateRestaurant -----

  /** The columns `updateRestaurant` sets: name and its slug when a name is given, the cover when a file is. */
  function UpdateChanges(libs: Libs, name: string, file: Option<ReqFile>): RestaurantChanges {
    RestaurantChanges(
      if name != "" then Some(name) else None,
      if name != "" then Some(libs.slugify(name)) else None,
      if file.Some? then Some(CompressedUrl(file.value)) else None)
  }

  /**
   * `updateRestaurant`: 404 for an unknown id; with a file, the old cover is
   * unlinked (a missing file ignored) and the upload compressed before the
   * row update, which the name validator or the unique slug index may refuse.
   */
  function UpdateRestaurantEffect(s: State, libs: Libs, id: int, file: Option<ReqFile>, name: string): (r: Reply)
    requires Integrity(s)
    ensures id !in s.restaurants.rows ==> r == Reply(NotFound, s)
    ensures r.status in {Ok, NotFound, ServerError}
    ensures r.status == Ok ==>
              && id in s.restaurants.rows
              && r.after.restaurants.next == s.restaurants.next
              && r.after.restaurants.rows.Keys == s.restaurants.rows.Keys
              && (forall k :: k in s.restaurants.rows && k != id ==> r.after.restaurants.rows[k] == s.restaurants.rows[k])
              && var before, after := s.restaurants.rows[id], r.after.restaurants.rows[id];
                 && after.name == (if name != "" then name else before.name)
                 && after.slug == (if name != "" then libs.slugify(name) else before.slug)
                 && after.coverImage == (if file.Some? then CompressedUrl(file.value) else before.coverImage)
                 && after.createdAt == before.createdAt
    ensures id in s.restaurants.rows ==>
              (r.status == Ok <==>
                 && (file.Some? ==> CompressEffect(s.files - {Resolve(s.restaurants.rows[id].coverImage)}, libs.encodeJpeg75,
                                                   UploadPath(file.value), CompressedPath(file.value)).0)
                 && (name != "" ==> RestaurantNameOk(name) && !SlugTaken(s.restaurants, libs.slugify(name), id)))
    ensures r.status != Ok ==> r.after.restaurants == s.restaurants
    ensures id in s.restaurants.rows && name != "" && SlugTaken(s.restaurants, libs.slugify(name), id) ==> r.status == ServerError
    ensures id in s.restaurants.rows && file.Some? && Resolve(s.restaurants.rows[id].coverImage) != CompressedPath(file.value) ==>
              Resolve(s.restaurants.rows[id].coverImage) !in r.after.files
    ensures file.None? ==> r.after.files == s.files
    ensures id in s.restaurants.rows && file.Some? ==>
              r.after.files == CompressEffect(s.files - {Resolve(s.restaurants.rows[id].coverImage)}, libs.encodeJpeg75,
                                              UploadPath(file.value), CompressedPath(file.value)).1
    ensures r.status == Ok && file.Some? ==> CompressedPath(file.value) in r.after.files
    ensures r.after == s.(files := r.after.files, restaurants := r.after.restaurants)
    ensures Integrity(r.after)
  {
    if id !in s.restaurants.rows then Reply(NotFound, s)
    else
      var files1 := if file.Some? then s.files - {Resolve(s.restaurants.rows[id].coverImage)} else s.files;
      var c := if file.Some? then CompressEffect(files1, libs.encodeJpeg75, UploadPath(file.value), CompressedPath(file.value))
               else (true, files1);
      var s1 := s.(files := c.1);
      if !c.0 then Reply(ServerError, s1)
      else match RestaurantUpdate(s.restaurants, id, UpdateChanges(libs, name, file))
        case None => Reply(ServerError, s1)
        case Some(t) => Reply(Ok, s1.(restaurants := t))
  }

  method UpdateRestaurant(db: Backend, id: int, file: Option<ReqFile>, name: string) returns (status: Status)
    requires Integrity(db.Snapshot())
    modifies db
    ensures Reply(status, db.Snapshot()) == UpdateRestaurantEffect(old(db.Snapshot()), db.libs, id, file, name)
  {
    var found := FindByPk(db.restaurants, id);
    if found.None? {
      return NotFound;
    }
    if file.Some? {
      var _ := db.Unlink(Resolve(found.value.coverImage));
      var ok := CompressImageIfNeeded(db, UploadPath(file.value), CompressedPath(file.value));
      if !ok {
        return ServerError;
      }
    }
    var ok := db.UpdateRestaurant(id, UpdateChanges(db.libs, name, file));
    status := if ok then Ok else ServerError;
  }

  /**
   * A new cover with a name the row update refuses: the old cover file is
   * already gone, yet the row still points at it.
   */
  lemma UpdateFailureLeavesDanglingCover(s: State, libs: Libs, id: int, f: ReqFile, name: string)
    requires Integrity(s) && id in s.restaurants.rows
    requires Resolve(s.restaurants.rows[id].coverImage) != CompressedPath(f)
    requires name != "" && !RestaurantNameOk(name)
    ensures var r := UpdateRestaurantEffect(s, libs, id, Some(f), name);
      && r.status == ServerError
      && r.after.restaurants.rows[id].coverImage == s.restaurants.rows[id].coverImage
      && Resolve(r.after.restaurants.rows[id].coverImage) !in r.after.files
  {
  }

  // ----- deleteRestaurant -----

  /** The files of the gallery photos of restaurant `rid`. */
  function GalleryFiles(t: Table<RestaurantPhoto>, rid: int): set<Path> {
    set k | k in t.rows && t.rows[k].restaurantId == rid :: Resolve(t.rows[k].imageUrl)
  }

  /** The files of the photos with the listed ids. */
  function FilesOf(t: Table<RestaurantPhoto>, ks: seq<int>): set<Path> {
    set k | k in ks && k in t.rows :: Resolve(t.rows[k].imageUrl)
  }

  /**
   * `deleteRestaurant`: 404 for an unknown id; otherwise the cover and every
   * gallery file are unlinked (missing files ignored), the restaurant's photo
   * rows are destroyed and then the restaurant row. Nothing else changes.
   */
  function DeleteRestaurantEffect(s: State, id: int): (r: Reply)
    requires Integrity(s)
    ensures id !in s.restaurants.rows ==> r == Reply(NotFound, s)
    ensures id in s.restaurants.rows ==>
              && r.status == Ok
              && r.after.files == s.files - ({Resolve(s.restaurants.rows[id].coverImage)} + GalleryFiles(s.restaurantPhotos, id))
              && r.after.restaurants.rows == s.restaurants.rows - {id}
              && r.after.restaurants.next == s.restaurants.next
              && r.after.restaurantPhotos.next == s.restaurantPhotos.next
              && (forall k :: k in r.after.restaurantPhotos.rows <==> k in s.restaurantPhotos.rows && s.restaurantPhotos.rows[k].restaurantId != id)
              && (forall k :: k in r.after.restaurantPhotos.rows ==> r.after.restaurantPhotos.rows[k] == s.restaurantPhotos.rows[k])
    ensures r.after.photography == s.photography && r.after.admins == s.admins
    ensures Integrity(r.after)
  {
    if id !in s.restaurants.rows then Reply(NotFound, s)
    else
      var gone := {Resolve(s.restaurants.rows[id].coverImage)} + GalleryFiles(s.restaurantPhotos, id);
      Reply(Ok, s.(files := s.files - gone,
                   restaurantPhotos := PhotosNotOf(s.restaurantPhotos, id),
                   restaurants := Without(s.restaurants, id)))
  }

  /**
   * Once the handler has destroyed a restaurant's photos itself, the
   * foreign key's cascade on the restaurant row finds nothing more to delete.
   */
  lemma CascadeFindsNothing(t: Table<RestaurantPhoto>, rid: int)
    ensures PhotosNotOf(PhotosNotOf(t, rid), rid) == PhotosNotOf(t, rid)
  {
    var once := PhotosNotOf(t, rid);
    assert PhotosNotOf(once, rid).rows == once.rows;
  }

  lemma FilesOfSnoc(t: Table<RestaurantPhoto>, ks: seq<int>, k: int)
    requires k in t.rows
    ensures FilesOf(t, ks + [k]) == FilesOf(t, ks) + {Resolve(t.rows[k].imageUrl)}
  {
  }

  /** The photos `findAll` returned for a restaurant have exactly its gallery's files. */
  lemma FilesOfGallery(t: Table<RestaurantPhoto>, rid: int, photos: seq<int>)
    requires forall k :: k in photos <==> k in t.rows && t.rows[k].restaurantId == rid
    ensures FilesOf(t, photos) == GalleryFiles(t, rid)
  {
  }

  /** The loop unlinking each photo's file, a missing file ignored. */
  method UnlinkPhotoFiles(db: Backend, photos: seq<int>)
    requires forall k :: k in photos ==> k in db.restaurantPhotos.rows
    modifies db
    ensures db.Snapshot() == old(db.Snapshot()).(files := old(db.files) - FilesOf(db.restaurantPhotos, photos))
  {
    for i := 0 to |photos|
      invariant db.Snapshot() == old(db.Snapshot()).(files := old(db.files) - FilesOf(db.restaurantPhotos, photos[..i]))
    {
      assert photos[i] in photos;
      assert photos[..i + 1] == photos[..i] + [photos[i]];
      FilesOfSnoc(db.restaurantPhotos, photos[..i], photos[i]);
      var _ := db.Unlink(Resolve(db.restaurantPhotos.rows[photos[i]].imageUrl));
    }
    assert photos[..|photos|] == photos;
  }

  method DeleteRestaurant(db: Backend, id: int) returns (status: Status)
    requires Integrity(db.Snapshot())
    modifies db
    ensures Reply(status, db.Snapshot()) == DeleteRestaurantEffect(old(db.Snapshot()), id)
  {
    var found := FindByPk(db.restaurants, id);
    if found.None? {
      return NotFound;
    }
    var _ := db.Unlink(Resolve(found.value.coverImage));
    var photos := Where(db.restaurantPhotos, (p: RestaurantPhoto) => p.restaurantId == id);
    UnlinkPhotoFiles(db, photos);
    FilesOfGallery(db.restaurantPhotos, id, photos);
    assert db.files == old(db.files) - ({Resolve(found.value.coverImage)} + GalleryFiles(db.restaurantPhotos, id));
    db.DestroyPhotosOf(id);
    CascadeFindsNothing(old(db.restaurantPhotos), id);
    db.DestroyRestaurant(id);
    status := Ok;
  }

  // ----- addGalleryPhotos -----

  /**
   * `compressImageIfNeeded` on each upload in turn, stopping at the first
   * that throws: whether all succeeded, and the file store afterwards.
   */
  function CompressAll(files: map<Path, Blob>, encode: Blob -> Option<nat>, ups: seq<ReqFile>): (r: (bool, map<Path, Blob>))
    ensures r.0 ==> forall f :: f in ups ==> UploadPath(f).Some?
    ensures r.0 && ups != [] ==> CompressedPath(ups[|ups| - 1]) in r.1
    decreases |ups|
  {
    if ups == [] then (true, files)
    else
      var init := ups[..|ups| - 1];
      var last := ups[|ups| - 1];
      var prev := CompressAll(files, encode, init);
      assert ups == init + [last];
      if !prev.0 then prev
      else CompressEffect(prev.1, encode, UploadPath(last), CompressedPath(last))
  }

  /** Once an upload fails, the ones after it are not processed: the whole loop ends as the prefix did. */
  lemma {:induction false} CompressAllStopsAtFailure(files: map<Path, Blob>, encode: Blob -> Option<nat>, ups: seq<ReqFile>, n: nat)
    requires n <= |ups|
    requires !CompressAll(files, encode, ups[..n]).0
    ensures CompressAll(files, encode, ups) == CompressAll(files, encode, ups[..n])
    decreases |ups| - n
  {
    if n < |ups| {
      assert ups[..n + 1][..n] == ups[..n];
      assert CompressAll(files, encode, ups[..n + 1]) == CompressAll(files, encode, ups[..n]);
      CompressAllStopsAtFailure(files, encode, ups, n + 1);
    } else {
      assert ups[..n] == ups;
    }
  }

  /** Upload `i` does not sit at the path upload `j` is compressed to. */
  predicate NotOutputOf(ups: seq<ReqFile>, i: int, j: int)
    requires 0 <= i < |ups| && 0 <= j < |ups|
  {
    UploadPath(ups[i]) != Some(CompressedPath(ups[j]))
  }

  /** No upload sits at the path another upload is compressed to. */
  predicate NoUploadIsOutput(ups: seq<ReqFile>) {
    forall i, j :: 0 <= i < |ups| && 0 <= j < |ups| && i != j ==> NotOutputOf(ups, i, j)
  }

  /** The paths the loop may touch: each upload's own path and its compressed output. */
  function TouchedBy(ups: seq<ReqFile>): set<Path> {
    (set f | f in ups && f.DiskFile? :: UploadPath(f).value) + (set f | f in ups :: CompressedPath(f))
  }

  /**
   * When the loop gets through every upload, every compressed output is on
   * disk and no upload is left at its own path.
   */
  lemma {:induction false} CompressAllOutputs(files: map<Path, Blob>, encode: Blob -> Option<nat>, ups: seq<ReqFile>)
    requires NoUploadIsOutput(ups)
    ensures var r := CompressAll(files, encode, ups);
      r.0 ==>
        forall i :: 0 <= i < |ups| ==> CompressedPath(ups[i]) in r.1 && ups[i].DiskFile? && UploadPath(ups[i]).value !in r.1
    decreases |ups|
  {
    if ups != [] {
      var init, last := ups[..|ups| - 1], ups[|ups| - 1];
      assert ups == init + [last];
      assert NoUploadIsOutput(init) by {
        forall i, j | 0 <= i < |init| && 0 <= j < |init| && i != j
          ensures NotOutputOf(init, i, j)
        {
          assert NotOutputOf(ups, i, j) && init[i] == ups[i] && init[j] == ups[j];
        }
      }
      CompressAllOutputs(files, encode, init);
      var prev := CompressAll(files, encode, init);
      var r := CompressAll(files, encode, ups);
      if r.0 {
        assert prev.0 && r == CompressEffect(prev.1, encode, UploadPath(last), CompressedPath(last));
        assert last in ups;
        CompressedPathDiffers(last.destination, last.filename);
        forall i | 0 <= i < |ups|
          ensures CompressedPath(ups[i]) in r.1 && ups[i].DiskFile? && UploadPath(ups[i]).value !in r.1
        {
          assert ups[i] in ups;
          if i < |ups| - 1 {
            assert ups[i] == init[i];
            assert NotOutputOf(ups, |ups| - 1, i) && NotOutputOf(ups, i, |ups| - 1);
          }
        }
      }
    }
  }

  /** The loop touches no file but the uploads and their compressed outputs. */
  lemma {:induction false} CompressAllFrame(files: map<Path, Blob>, encode: Blob -> Option<nat>, ups: seq<ReqFile>)
    ensures var r := CompressAll(files, encode, ups);
      forall p :: p !in TouchedBy(ups) ==> (p in r.1 <==> p in files) && (p in files ==> r.1[p] == files[p])
    decreases |ups|
  {
    if ups != [] {
      var init, last := ups[..|ups| - 1], ups[|ups| - 1];
      assert ups == init + [last];
      CompressAllFrame(files, encode, init);
      assert TouchedBy(init) <= TouchedBy(ups) by {
        forall f | f in init ensures f in ups {
          var i :| 0 <= i < |init| && init[i] == f;
          assert ups[i] == f;
        }
      }
      assert last in ups;
    }
  }

  /** The rows `addGalleryPhotos` pushes: one per upload, in upload order, all stamped by the same insert. */
  function GalleryRows(rid: int, ups: seq<ReqFile>, now: int): (rows: seq<RestaurantPhoto>)
    ensures |rows| == |ups|
    ensures forall i :: 0 <= i < |ups| ==> rows[i] == RestaurantPhoto(rid, CompressedUrl(ups[i]), now)
  {
    if ups == [] then [] else GalleryRows(rid, ups[..|ups| - 1], now) + [RestaurantPhoto(rid, CompressedUrl(ups[|ups| - 1]), now)]
  }

  /**
   * `addGalleryPhotos`: 404 for an unknown restaurant, then 422 for no files;
   * every upload is compressed in order and the rows are inserted together.
   */
  function AddGalleryPhotosEffect(s: State, libs: Libs, id: int, ups: seq<ReqFile>, now: int): (r: Reply)
    requires Integrity(s)
    ensures id !in s.restaurants.rows ==> r == Reply(NotFound, s)
    ensures id in s.restaurants.rows && ups == [] ==> r == Reply(Unprocessable, s)
    ensures r.status in {Created, NotFound, Unprocessable, ServerError}
    ensures r.status == Created <==> id in s.restaurants.rows && ups != [] && CompressAll(s.files, libs.encodeJpeg75, ups).0
    ensures id in s.restaurants.rows && ups != [] ==> r.after.files == CompressAll(s.files, libs.encodeJpeg75, ups).1
    ensures r.status == Created ==> r.after.restaurantPhotos == InsertAll(s.restaurantPhotos, GalleryRows(id, ups, now))
    ensures r.status != Created ==> r.after.restaurantPhotos == s.restaurantPhotos
    ensures r.after == s.(files := r.after.files, restaurantPhotos := r.after.restaurantPhotos)
    ensures Integrity(r.after)
  {
    if id !in s.restaurants.rows then Reply(NotFound, s)
    else if ups == [] then Reply(Unprocessable, s)
    else
      var c := CompressAll(s.files, libs.encodeJpeg75, ups);
      var s1 := s.(files := c.1);
      if !c.0 then Reply(ServerError, s1)
      else
        match PhotosBulkCreate(s.restaurants, s.restaurantPhotos, GalleryRows(id, ups, now))
        case None => Reply(ServerError, s1)
        case Some(t) => Reply(Created, s1.(restaurantPhotos := t))
  }

  /**
   * The rows `addGalleryPhotos` inserts: upload `i` gets the id `next + i`,
   * owned by the restaurant and naming the compressed upload (that the
   * earlier rows are untouched and no other row appears is `InsertAll`'s).
   */
  lemma {:induction false} GalleryInsertLayout(t: Table<RestaurantPhoto>, rid: int, ups: seq<ReqFile>, now: int)
    requires Wf(t)
    ensures var after := InsertAll(t, GalleryRows(rid, ups, now));
      && after.next == t.next + |ups|
      && forall i :: 0 <= i < |ups| ==>
           (t.next + i in after.rows && after.rows[t.next + i] == RestaurantPhoto(rid, CompressedUrl(ups[i]), now))
  {
    var rows := GalleryRows(rid, ups, now);
    var after := InsertAll(t, rows);
    forall i | 0 <= i < |ups|
      ensures t.next + i in after.rows && after.rows[t.next + i] == RestaurantPhoto(rid, CompressedUrl(ups[i]), now)
    {
      assert after.rows[t.next + i] == rows[i];
    }
  }

  /** Upload `i` became the row with id `first + i`, naming its compressed copy. */
  predicate RowsLaidOut(photos: map<int, RestaurantPhoto>, first: int, rid: int, ups: seq<ReqFile>, now: int)
  {
    forall i :: 0 <= i < |ups| ==> first + i in photos && photos[first + i] == RestaurantPhoto(rid, CompressedUrl(ups[i]), now)
  }

  /** Every upload's compressed copy is on disk. */
  predicate OutputsPresent(files: map<Path, Blob>, ups: seq<ReqFile>)
  {
    forall i :: 0 <= i < |ups| ==> CompressedPath(ups[i]) in files
  }

  /** Every row with an id in `[lo, hi)` exists and names a file that is on disk. */
  predicate RowsNameFiles(rows: map<int, RestaurantPhoto>, lo: int, hi: int, files: map<Path, Blob>)
  {
    forall k :: lo <= k < hi ==> k in rows && Resolve(rows[k].imageUrl) in files
  }

  lemma {:induction false} RowsNameFilesOnDisk(photos: map<int, RestaurantPhoto>, first: int, files: map<Path, Blob>,
                                               rid: int, ups: seq<ReqFile>, now: int)
    requires RowsLaidOut(photos, first, rid, ups, now) && OutputsPresent(files, ups)
    ensures RowsNameFiles(photos, first, first + |ups|, files)
  {
    forall k | first <= k < first + |ups|
      ensures k in photos && Resolve(photos[k].imageUrl) in files
    {
      var f := ups[k - first];
      assert photos[k].imageUrl == CompressedUrl(f);
      ResolvePublicUrl(RESTAURANT_DIR, CompressedName(FilenameText(f)));
    }
  }

  /** The rows of a completed loop name the compressed files, which are on disk. */
  lemma {:induction false} GalleryRowsOnDisk(t: Table<RestaurantPhoto>, files: map<Path, Blob>, encode: Blob -> Option<nat>,
                                             rid: int, ups: seq<ReqFile>, now: int)
    requires Wf(t) && NoUploadIsOutput(ups) && CompressAll(files, encode, ups).0
    ensures var photos, after := InsertAll(t, GalleryRows(rid, ups, now)), CompressAll(files, encode, ups).1;
      RowsNameFiles(photos.rows, t.next, t.next + |ups|, after)
  {
    var photos, after := InsertAll(t, GalleryRows(rid, ups, now)), CompressAll(files, encode, ups).1;
    assert RowsLaidOut(photos.rows, t.next, rid, ups, now) by {
      GalleryInsertLayout(t, rid, ups, now);
    }
    assert OutputsPresent(after, ups) by {
      CompressAllOutputs(files, encode, ups);
    }
    RowsNameFilesOnDisk(photos.rows, t.next, after, rid, ups, now);
  }

  /**
   * After a 201, upload `i`'s row (id `next + i`) names a file that is on
   * disk and the upload itself is gone from its path, provided no upload
   * sits where another is compressed to.
   */
  lemma {:induction false} AddedPhotosNameFilesOnDisk(s: State, libs: Libs, id: int, ups: seq<ReqFile>, now: int)
    requires Integrity(s) && NoUploadIsOutput(ups)
    ensures var r := AddGalleryPhotosEffect(s, libs, id, ups, now);
      r.status == Created ==>
        && r.after.restaurantPhotos.next == s.restaurantPhotos.next + |ups|
        && RowsNameFiles(r.after.restaurantPhotos.rows, s.restaurantPhotos.next, r.after.restaurantPhotos.next, r.after.files)
        && (forall i :: 0 <= i < |ups| ==> ups[i].DiskFile? && UploadPath(ups[i]).value !in r.after.files)
  {
    var r := AddGalleryPhotosEffect(s, libs, id, ups, now);
    if r.status == Created {
      var files := CompressAll(s.files, libs.encodeJpeg75, ups).1;
      var photos := InsertAll(s.restaurantPhotos, GalleryRows(id, ups, now));
      assert r.after.files == files && r.after.restaurantPhotos == photos;
      assert CompressAll(s.files, libs.encodeJpeg75, ups).0;
      assert photos.next == s.restaurantPhotos.next + |ups| by {
        GalleryInsertLayout(s.restaurantPhotos, id, ups, now);
      }
      GalleryRowsOnDisk(s.restaurantPhotos, s.files, libs.encodeJpeg75, id, ups, now);
      CompressAllOutputs(s.files, libs.encodeJpeg75, ups);
    }
  }

  /** The loop of `addGalleryPhotos`: compress each upload in order and collect its row; stop at the first failure. */
  method CompressGallery(db: Backend, id: int, ups: seq<ReqFile>, now: int) returns (ok: bool, rows: seq<RestaurantPhoto>)
    modifies db
    ensures ok == CompressAll(old(db.files), db.libs.encodeJpeg75, ups).0
    ensures ok ==> rows == GalleryRows(id, ups, now)
    ensures db.Snapshot() == old(db.Snapshot()).(files := CompressAll(old(db.files), db.libs.encodeJpeg75, ups).1)
  {
    rows := [];
    for i := 0 to |ups|
      invariant rows == GalleryRows(id, ups[..i], now)
      invariant CompressAll(old(db.files), db.libs.encodeJpeg75, ups[..i]).0
      invariant db.Snapshot() == old(db.Snapshot()).(files := CompressAll(old(db.files), db.libs.encodeJpeg75, ups[..i]).1)
    {
      assert ups[..i + 1][..i] == ups[..i];
      ok := CompressImageIfNeeded(db, UploadPath(ups[i]), CompressedPath(ups[i]));
      if !ok {
        CompressAllStopsAtFailure(old(db.files), db.libs.encodeJpeg75, ups, i + 1);
        return;
      }
      rows := rows + [RestaurantPhoto(id, CompressedUrl(ups[i]), now)];
    }
    assert ups[..|ups|] == ups;
    ok := true;
  }

  method AddGalleryPhotos(db: Backend, id: int, ups: seq<ReqFile>, now: int) returns (status: Status)
    requires Integrity(db.Snapshot())
    modifies db
    ensures Reply(status, db.Snapshot()) == AddGalleryPhotosEffect(old(db.Snapshot()), db.libs, id, ups, now)
  {
    if FindByPk(db.restaurants, id).None? {
      return NotFound;
    }
    if |ups| == 0 {
      return Unprocessable;
    }
    var ok, rows := CompressGallery(db, id, ups, now);
    if !ok {
      return ServerError;
    }
    ok := db.BulkCreatePhotos(rows);
    status := if ok then Created else ServerError;
  }

  // ----- updateGalleryPhoto -----

  /** The photo exists and belongs to restaurant `rid`. */
  predicate PhotoOf(t: Table<RestaurantPhoto>, photoId: int, rid: int) {
    photoId in t.rows && t.rows[photoId].restaurantId == rid
  }

  /**
   * `updateGalleryPhoto`: 422 without a file, then 404 for an unknown
   * restaurant or a photo not of that restaurant; the old file is unlinked
   * (a missing file ignored) and the upload compressed, then the row points
   * at the new file.
   */
  function UpdateGalleryPhotoEffect(s: State, libs: Libs, id: int, photoId: int, file: Option<ReqFile>): (r: Reply)
    requires Integrity(s)
    ensures file.None? ==> r == Reply(Unprocessable, s)
    ensures file.Some? && !(id in s.restaurants.rows && PhotoOf(s.restaurantPhotos, photoId, id)) ==> r == Reply(NotFound, s)
    ensures r.status in {Ok, Unprocessable, NotFound, ServerError}
    ensures r.status == Ok <==>
              && file.Some? && id in s.restaurants.rows && PhotoOf(s.restaurantPhotos, photoId, id)
              && CompressEffect(s.files - {Resolve(s.restaurantPhotos.rows[photoId].imageUrl)}, libs.encodeJpeg75,
                                UploadPath(file.value), CompressedPath(file.value)).0
    ensures r.status == Ok ==>
              && r.after.restaurantPhotos.next == s.restaurantPhotos.next
              && r.after.restaurantPhotos.rows == s.restaurantPhotos.rows[photoId :=
                   s.restaurantPhotos.rows[photoId].(imageUrl := CompressedUrl(file.value))]
              && CompressedPath(file.value) in r.after.files
    ensures r.status != Ok ==> r.after.restaurantPhotos == s.restaurantPhotos
    ensures r.status in {Ok, ServerError} && Resolve(s.restaurantPhotos.rows[photoId].imageUrl) != CompressedPath(file.value) ==>
              Resolve(s.restaurantPhotos.rows[photoId].imageUrl) !in r.after.files
    ensures file.Some? && id in s.restaurants.rows && PhotoOf(s.restaurantPhotos, photoId, id) ==>
              r.after.files == CompressEffect(s.files - {Resolve(s.restaurantPhotos.rows[photoId].imageUrl)}, libs.encodeJpeg75,
                                              UploadPath(file.value), CompressedPath(file.value)).1
    ensures r.after == s.(files := r.after.files, restaurantPhotos := r.after.restaurantPhotos)
    ensures Integrity(r.after)
  {
    if file.None? then Reply(Unprocessable, s)
    else if id !in s.restaurants.rows || !PhotoOf(s.restaurantPhotos, photoId, id) then Reply(NotFound, s)
    else
      var photo := s.restaurantPhotos.rows[photoId];
      var c := CompressEffect(s.files - {Resolve(photo.imageUrl)}, libs.encodeJpeg75, UploadPath(file.value), CompressedPath(file.value));
      var s1 := s.(files := c.1);
      if !c.0 then Reply(ServerError, s1)
      else Reply(Ok, s1.(restaurantPhotos := s.restaurantPhotos.(rows :=
                   s.restaurantPhotos.rows[photoId := photo.(imageUrl := CompressedUrl(file.value))])))
  }

  method UpdateGalleryPhoto(db: Backend, id: int, photoId: int, file: Option<ReqFile>) returns (status: Status)
    requires Integrity(db.Snapshot())
    modifies db
    ensures Reply(status, db.Snapshot()) == UpdateGalleryPhotoEffect(old(db.Snapshot()), db.libs, id, photoId, file)
  {
    if file.None? {
      return Unprocessable;
    }
    if FindByPk(db.restaurants, id).None? {
      return NotFound;
    }
    var photo := FindByPk(db.restaurantPhotos, photoId);
    if photo.None? || photo.value.restaurantId != id {
      return NotFound;
    }
    var _ := db.Unlink(Resolve(photo.value.imageUrl));
    var ok := CompressImageIfNeeded(db, UploadPath(file.value), CompressedPath(file.value));
    if !ok {
      return ServerError;
    }
    db.SetPhotoUrl(photoId, CompressedUrl(file.value));
    status := Ok;
  }

  // ----- deleteGalleryPhoto -----

  /**
   * `deleteGalleryPhoto`: 404 unless the photo exists and belongs to
   * restaurant `id` (the restaurant itself is not looked up); otherwise its
   * file is unlinked (a missing file ignored) and its row destroyed.
   */
  function DeleteGalleryPhotoEffect(s: State, id: int, photoId: int): (r: Reply)
    requires Integrity(s)
    ensures !PhotoOf(s.restaurantPhotos, photoId, id) ==> r == Reply(NotFound, s)
    ensures PhotoOf(s.restaurantPhotos, photoId, id) ==>
              && r.status == Ok
              && r.after.files == s.files - {Resolve(s.restaurantPhotos.rows[photoId].imageUrl)}
              && r.after.restaurantPhotos.rows == s.restaurantPhotos.rows - {photoId}
    ensures r.after.restaurantPhotos.next == s.restaurantPhotos.next
    ensures r.after == s.(files := r.after.files, restaurantPhotos := r.after.restaurantPhotos)
    ensures Integrity(r.after)
  {
    if !PhotoOf(s.restaurantPhotos, photoId, id) then Reply(NotFound, s)
    else
      Reply(Ok, s.(files := s.files - {Resolve(s.restaurantPhotos.rows[photoId].imageUrl)},
                   restaurantPhotos := Without(s.restaurantPhotos, photoId)))
  }

  method DeleteGalleryPhoto(db: Backend, id: int, photoId: int) returns (status: Status)
    requires Integrity(db.Snapshot())
    modifies db
    ensures Reply(status, db.Snapshot()) == DeleteGalleryPhotoEffect(old(db.Snapshot()), id, photoId)
  {
    var photo := FindByPk(db.restaurantPhotos, photoId);
    if photo.None? || photo.value.restaurantId != id {
      return NotFound;
    }
    var _ := db.Unlink(Resolve(photo.value.imageUrl));
    db.DestroyPhoto(photoId);
    status := Ok;
  }

  // ----- the read-only queries -----

  /** `getAllRestaurants`: the ids of all restaurants, each once, newest first. */
  function AllRestaurants(s: State): (ks: seq<int>)
    requires Integrity(s)
    ensures multiset(ks) == multiset(Where(s.restaurants, (x: Restaurant) => true))
    ensures forall k :: k in ks <==> k in s.restaurants.rows
    ensures NewestFirstOrder(s.restaurants, ks, (x: Restaurant) => x.createdAt)
    ensures Distinct(ks)
  {
    var all := Where(s.restaurants, (x: Restaurant) => true);
    var ks := NewestFirst(s.restaurants, all, (x: Restaurant) => x.createdAt);
    assert forall k :: k in ks <==> k in multiset(ks);
    DistinctRearranged(ks, all);
    ks
  }

  /** `getRestaurant`: 404, or the restaurant and the ids of its photos. */
  function RestaurantWithPhotos(s: State, id: int): (r: (Status, seq<int>))
    requires Integrity(s)
    ensures r.0 == (if id in s.restaurants.rows then Ok else NotFound)
    ensures forall k :: k in r.1 <==> id in s.restaurants.rows && PhotoOf(s.restaurantPhotos, k, id)
    ensures Distinct(r.1)
  {
    if id !in s.restaurants.rows then (NotFound, [])
    else (Ok, Where(s.restaurantPhotos, (p: RestaurantPhoto) => p.restaurantId == id))
  }

  /**
   * `getGalleryPhotos`: 404 when no restaurant has the slug; otherwise the
   * ids of its photos, newest first.
   */
  function GalleryBySlug(s: State, slug: string): (r: (Status, seq<int>))
    requires Integrity(s)
    ensures r.0 == (if SlugInUse(s.restaurants, slug) then Ok else NotFound)
    ensures forall k :: k in r.1 <==>
              exists rid :: rid in s.restaurants.rows && s.restaurants.rows[rid].slug == slug && PhotoOf(s.restaurantPhotos, k, rid)
    ensures NewestFirstOrder(s.restaurantPhotos, r.1, (p: RestaurantPhoto) => p.createdAt)
    ensures Distinct(r.1)
  {
    match FindOne(s.restaurants, (x: Restaurant) => x.slug == slug)
    case None => (NotFound, [])
    case Some(rid) =>
      var photos := Where(s.restaurantPhotos, (p: RestaurantPhoto) => p.restaurantId == rid);
      var ks := NewestFirst(s.restaurantPhotos, photos, (p: RestaurantPhoto) => p.createdAt);
      assert forall k :: k in ks <==> k in multiset(photos);
      DistinctRearranged(ks, photos);
      (Ok, ks)
  }
}
