/**
 * The state the handlers share: the upload directories on disk and the four
 * MySQL tables behind the Sequelize models, with the foreign libraries the
 * handlers call passed in as functions.
 */
module Store {
  import opened Optional
  import opened Http
  import opened Paths
  import opened Tables

  /** Contents of a stored file: an upload as received, or the quality-75 JPEG sharp made of another file. */
  datatype Blob = Original(size: nat) | Jpeg75(source: Blob, size: nat)

  /** models/Restaurant.js */
  datatype Restaurant = Restaurant(name: string, slug: string, coverImage: string, createdAt: int)
  /** models/RestaurantPhoto.js */
  datatype RestaurantPhoto = RestaurantPhoto(restaurantId: int, imageUrl: string, createdAt: int)
  /** models/PhotographyPhoto.js */
  datatype PhotographyPhoto = PhotographyPhoto(imageUrl: string, createdAt: int)
  /** models/Admin.js; `null` password-reset fields are `None`. */
  datatype Admin = Admin(
    adminName: string,
    email: string,
    password: string,
    role: string,
    isApproved: bool,
    approvalToken: string,
    resetOTP: Option<string>,
    resetOTPExpires: Option<int>)

  /** What `login` signs into a JWT. */
  datatype Payload = Payload(id: int, email: string)

  /**
   * The foreign libraries, as functions the model knows nothing about:
   * slugify, sharp's quality-75 JPEG encoder (`None` when it throws), bcrypt's
   * hash and compare, and jsonwebtoken's sign and verify (`None` when
   * verification throws: bad signature, expired, malformed).
   */
  datatype Libs = Libs(
    slugify: string -> string,
    encodeJpeg75: Blob -> Option<nat>,
    hash: string -> string,
    compare: (string, string) -> bool,
    sign: Payload -> string,
    verify: string -> Option<Payload>)

  datatype State = State(
    files: map<Path, Blob>,
    restaurants: Table<Restaurant>,
    restaurantPhotos: Table<RestaurantPhoto>,
    photography: Table<PhotographyPhoto>,
    admins: Table<Admin>)

  /** What a handler answers and the state it leaves behind. */
  datatype Reply = Reply(status: Status, after: State)

  /** The Restaurant model's `len: [2, 100]` validator on `name`. */
  predicate RestaurantNameOk(name: string) {
    2 <= |name| <= 100
  }

  /** The Admin model's `len: [2, 60]` validator on `adminName`. */
  predicate AdminNameOk(name: string) {
    2 <= |name| <= 60
  }

  /** What MySQL keeps true: ids from the counters, the unique indexes, and the photos' foreign key. */
  ghost predicate Integrity(s: State) {
    && Wf(s.restaurants) && Wf(s.restaurantPhotos) && Wf(s.photography) && Wf(s.admins)
    && SlugsUnique(s.restaurants)
    && EmailsUnique(s.admins)
    && PhotosOwned(s.restaurants, s.restaurantPhotos)
  }

  ghost predicate SlugsUnique(t: Table<Restaurant>) {
    forall i, j :: i in t.rows && j in t.rows && i != j ==> t.rows[i].slug != t.rows[j].slug
  }

  ghost predicate EmailsUnique(t: Table<Admin>) {
    forall i, j :: i in t.rows && j in t.rows && i != j ==> t.rows[i].email != t.rows[j].email
  }

  /** `restaurantId` is a foreign key into `restaurants` (models/Restaurant.js, `hasMany` / `belongsTo`). */
  ghost predicate PhotosOwned(restaurants: Table<Restaurant>, photos: Table<RestaurantPhoto>) {
    forall k :: k in photos.rows ==> photos.rows[k].restaurantId in restaurants.rows
  }

  function InitialState(): (s: State)
    ensures Integrity(s)
  {
    State(map[], EmptyTable(), EmptyTable(), EmptyTable(), EmptyTable())
  }

  // ----- the file system -----

  /** `fs.statSync(p).size`; `None` when it throws because there is no such file. */
  function StatSize(files: map<Path, Blob>, p: Path): Option<nat> {
    if p in files then Some(files[p].size) else None
  }

  /** `fs.renameSync(from, to)`: throws when `from` is missing; replaces any file at `to`. */
  function RenameSync(files: map<Path, Blob>, from: Path, to: Path): (bool, map<Path, Blob>) {
    if from in files then (true, (files - {from})[to := files[from]]) else (false, files)
  }

  /**
   * `sharp(from).jpeg({ quality: 75 }).toFile(to)`: throws when the input is
   * missing, when input and output are the same file, or when the encoder
   * fails; otherwise writes the encoder's output at `to`.
   */
  function SharpToFile(files: map<Path, Blob>, encode: Blob -> Option<nat>, from: Path, to: Path): (bool, map<Path, Blob>) {
    if from !in files || from == to then (false, files)
    else match encode(files[from])
      case None => (false, files)
      case Some(n) => (true, files[to := Jpeg75(files[from], n)])
  }

  // ----- the tables -----

  /** Some row other than `self` already has this slug (the unique index on `slug`). */
  predicate SlugTaken(t: Table<Restaurant>, slug: string, self: int) {
    exists k :: k in t.rows && k != self && t.rows[k].slug == slug
  }

  /** `Restaurant.create(row)`: the name validator, then the INSERT the unique slug index may refuse. */
  function RestaurantCreate(t: Table<Restaurant>, row: Restaurant): Option<Table<Restaurant>>
    requires Wf(t)
  {
    if !RestaurantNameOk(row.name) || SlugTaken(t, row.slug, t.next) then None
    else Some(Insert(t, row))
  }

  /** The columns `restaurant.update(updates)` sets: those present. */
  datatype RestaurantChanges = RestaurantChanges(name: Option<string>, slug: Option<string>, coverImage: Option<string>)

  function Changed(r: Restaurant, c: RestaurantChanges): Restaurant {
    r.(name := if c.name.Some? then c.name.value else r.name,
       slug := if c.slug.Some? then c.slug.value else r.slug,
       coverImage := if c.coverImage.Some? then c.coverImage.value else r.coverImage)
  }

  /** `restaurant.update(updates)`: validates a changed name, and the unique slug index refuses a slug another row has. */
  function RestaurantUpdate(t: Table<Restaurant>, id: int, c: RestaurantChanges): Option<Table<Restaurant>>
    requires id in t.rows
  {
    if c.name.Some? && !RestaurantNameOk(c.name.value) then None
    else if c.slug.Some? && SlugTaken(t, c.slug.value, id) then None
    else Some(t.(rows := t.rows[id := Changed(t.rows[id], c)]))
  }

  function Without<T>(t: Table<T>, id: int): Table<T> {
    t.(rows := t.rows - {id})
  }

  /** The photos whose `restaurantId` is not `rid`. */
  function PhotosNotOf(t: Table<RestaurantPhoto>, rid: int): (r: Table<RestaurantPhoto>)
    ensures r.next == t.next
    ensures forall k :: k in r.rows <==> k in t.rows && t.rows[k].restaurantId != rid
    ensures forall k :: k in r.rows ==> r.rows[k] == t.rows[k]
  {
    t.(rows := map k | k in t.rows && t.rows[k].restaurantId != rid :: t.rows[k])
  }

  /** `RestaurantPhoto.bulkCreate(rows)`: one INSERT, refused as a whole if a row breaks the foreign key. */
  function PhotosBulkCreate(restaurants: Table<Restaurant>, t: Table<RestaurantPhoto>, rows: seq<RestaurantPhoto>): (r: Option<Table<RestaurantPhoto>>)
    requires Wf(t)
    ensures r.Some? <==> forall i :: 0 <= i < |rows| ==> rows[i].restaurantId in restaurants.rows
    ensures r.Some? ==> r.value == InsertAll(t, rows)
    ensures r.Some? && PhotosOwned(restaurants, t) ==> PhotosOwned(restaurants, r.value)
  {
    if forall i :: 0 <= i < |rows| ==> rows[i].restaurantId in restaurants.rows then
      var after := InsertAll(t, rows);
      assert PhotosOwned(restaurants, t) ==> PhotosOwned(restaurants, after) by {
        if PhotosOwned(restaurants, t) {
          forall k | k in after.rows ensures after.rows[k].restaurantId in restaurants.rows {
            if k !in t.rows {
              assert after.rows[t.next + (k - t.next)] == rows[k - t.next];
            }
          }
        }
      }
      Some(after)
    else None
  }

  /** Some admin has this email (the unique index on `email`). */
  predicate EmailTaken(t: Table<Admin>, email: string) {
    exists k :: k in t.rows && t.rows[k].email == email
  }

  /** Saving an admin record under its own email keeps the constraints. */
  lemma AdminSaveKeepsIntegrity(s: State, k: int, a: Admin)
    requires Integrity(s) && k in s.admins.rows && a.email == s.admins.rows[k].email
    ensures Integrity(s.(admins := s.admins.(rows := s.admins.rows[k := a])))
  {
  }

  /** Destroying an admin record keeps the constraints. */
  lemma AdminDestroyKeepsIntegrity(s: State, k: int)
    requires Integrity(s)
    ensures Integrity(s.(admins := Without(s.admins, k)))
  {
  }

  /** `Admin.findOne({ where: { email } })` */
  function AdminWithEmail(t: Table<Admin>, email: string): (r: Option<int>)
    requires Wf(t)
    ensures r.None? <==> !EmailTaken(t, email)
    ensures r.Some? ==> r.value in t.rows && t.rows[r.value].email == email
    ensures r.Some? && EmailsUnique(t) ==> forall k :: k in t.rows && t.rows[k].email == email ==> k == r.value
  {
    FindOne(t, (a: Admin) => a.email == email)
  }

  /** `Admin.findOne({ where: { approvalToken: token } })`: the earliest admin holding the token. */
  function AdminWithToken(t: Table<Admin>, token: string): (r: Option<int>)
    requires Wf(t)
    ensures r.None? <==> forall k :: k in t.rows ==> t.rows[k].approvalToken != token
    ensures r.Some? ==> r.value in t.rows && t.rows[r.value].approvalToken == token
    ensures r.Some? ==> forall k :: k in t.rows && t.rows[k].approvalToken == token ==> r.value <= k
  {
    FindOne(t, (a: Admin) => a.approvalToken == token)
  }

  /** `Admin.create(row)`: the `adminName` validator, then the INSERT the unique email index may refuse. */
  function AdminCreate(t: Table<Admin>, row: Admin): Option<Table<Admin>>
    requires Wf(t)
  {
    if !AdminNameOk(row.adminName) || EmailTaken(t, row.email) then None else Some(Insert(t, row))
  }

  /**
   * The process-wide state: the working directory's files and the database.
   * Each method is one call the handlers make into `fs` or into a model.
   */
  class Backend {
    var files: map<Path, Blob>
    var restaurants: Table<Restaurant>
    var restaurantPhotos: Table<RestaurantPhoto>
    var photography: Table<PhotographyPhoto>
    var admins: Table<Admin>
    const libs: Libs

    function Snapshot(): State
      reads this
    {
      State(files, restaurants, restaurantPhotos, photography, admins)
    }

    constructor (libs: Libs)
      ensures Snapshot() == InitialState() && this.libs == libs
    {
      files, restaurants, restaurantPhotos, photography, admins :=
        map[], EmptyTable(), EmptyTable(), EmptyTable(), EmptyTable();
      this.libs := libs;
    }

    /** `fs.statSync(p).size` */
    method Stat(p: Path) returns (size: Option<nat>)
      ensures size == StatSize(files, p)
    {
      size := if p in files then Some(files[p].size) else None;
    }

    /** `fs.unlinkSync(p)`: `ok` is false when it throws because the file is missing. */
    method Unlink(p: Path) returns (ok: bool)
      modifies this
      ensures ok <==> p in old(files)
      ensures Snapshot() == old(Snapshot()).(files := old(files) - {p})
    {
      ok := p in files;
      files := files - {p};
    }

    /** `fs.renameSync(from, to)` */
    method Rename(from: Path, to: Path) returns (ok: bool)
      modifies this
      ensures (ok, Snapshot()) == (RenameSync(old(files), from, to).0, old(Snapshot()).(files := RenameSync(old(files), from, to).1))
    {
      var r := RenameSync(files, from, to);
      ok, files := r.0, r.1;
    }

    /** `sharp(from).jpeg({ quality: 75 }).toFile(to)` */
    method WriteJpeg75(from: Path, to: Path) returns (ok: bool)
      modifies this
      ensures (ok, Snapshot()) == (SharpToFile(old(files), libs.encodeJpeg75, from, to).0,
                                old(Snapshot()).(files := SharpToFile(old(files), libs.encodeJpeg75, from, to).1))
    {
      var r := SharpToFile(files, libs.encodeJpeg75, from, to);
      ok, files := r.0, r.1;
    }

    /** `Restaurant.create(row)`; `id` is the new row's id, `None` when it throws. */
    method CreateRestaurant(row: Restaurant) returns (id: Option<int>)
      requires Wf(restaurants)
      modifies this
      ensures var r := RestaurantCreate(old(restaurants), row);
        && id == (if r.Some? then Some(old(restaurants).next) else None)
        && Snapshot() == old(Snapshot()).(restaurants := if r.Some? then r.value else old(restaurants))
    {
      var r := RestaurantCreate(restaurants, row);
      id := if r.Some? then Some(restaurants.next) else None;
      if r.Some? {
        restaurants := r.value;
      }
    }

    /** `restaurant.update(changes)` */
    method UpdateRestaurant(id: int, c: RestaurantChanges) returns (ok: bool)
      requires id in restaurants.rows
      modifies this
      ensures var r := RestaurantUpdate(old(restaurants), id, c);
        && ok == r.Some?
        && Snapshot() == old(Snapshot()).(restaurants := if r.Some? then r.value else old(restaurants))
    {
      var r := RestaurantUpdate(restaurants, id, c);
      ok := r.Some?;
      if r.Some? {
        restaurants := r.value;
      }
    }

    /** `restaurant.destroy()`; the foreign key's ON DELETE CASCADE removes any photo still pointing at it. */
    method DestroyRestaurant(id: int)
      modifies this
      ensures Snapshot() == old(Snapshot()).(restaurants := Without(old(restaurants), id),
                                       restaurantPhotos := PhotosNotOf(old(restaurantPhotos), id))
    {
      restaurants := Without(restaurants, id);
      restaurantPhotos := PhotosNotOf(restaurantPhotos, id);
    }

    /** `RestaurantPhoto.bulkCreate(rows)` */
    method BulkCreatePhotos(rows: seq<RestaurantPhoto>) returns (ok: bool)
      requires Wf(restaurantPhotos)
      modifies this
      ensures var r := PhotosBulkCreate(old(restaurants), old(restaurantPhotos), rows);
        && ok == r.Some?
        && Snapshot() == old(Snapshot()).(restaurantPhotos := if r.Some? then r.value else old(restaurantPhotos))
    {
      var r := PhotosBulkCreate(restaurants, restaurantPhotos, rows);
      ok := r.Some?;
      if r.Some? {
        restaurantPhotos := r.value;
      }
    }

    /** `photo.update({ imageUrl })` */
    method SetPhotoUrl(id: int, url: string)
      requires id in restaurantPhotos.rows
      modifies this
      ensures Snapshot() == old(Snapshot()).(restaurantPhotos := old(restaurantPhotos).(rows :=
        old(restaurantPhotos).rows[id := old(restaurantPhotos).rows[id].(imageUrl := url)]))
    {
      restaurantPhotos := restaurantPhotos.(rows := restaurantPhotos.rows[id := restaurantPhotos.rows[id].(imageUrl := url)]);
    }

    /** `photo.destroy()` */
    method DestroyPhoto(id: int)
      modifies this
      ensures Snapshot() == old(Snapshot()).(restaurantPhotos := Without(old(restaurantPhotos), id))
    {
      restaurantPhotos := Without(restaurantPhotos, id);
    }

    /** `RestaurantPhoto.destroy({ where: { restaurantId } })` */
    method DestroyPhotosOf(rid: int)
      modifies this
      ensures Snapshot() == old(Snapshot()).(restaurantPhotos := PhotosNotOf(old(restaurantPhotos), rid))
    {
      restaurantPhotos := PhotosNotOf(restaurantPhotos, rid);
    }

    /** `PhotographyPhoto.create(row)`; returns the new id. */
    method CreatePhotography(row: PhotographyPhoto) returns (id: int)
      requires Wf(photography)
      modifies this
      ensures id == old(photography).next
      ensures Snapshot() == old(Snapshot()).(photography := Insert(old(photography), row))
    {
      id := photography.next;
      photography := Insert(photography, row);
    }

    /** `photo.destroy()` on a photography row */
    method DestroyPhotography(id: int)
      modifies this
      ensures Snapshot() == old(Snapshot()).(photography := Without(old(photography), id))
    {
      photography := Without(photography, id);
    }

    /** `Admin.create(row)`; `None` when it throws. */
    method CreateAdmin(row: Admin) returns (id: Option<int>)
      requires Wf(admins)
      modifies this
      ensures var r := AdminCreate(old(admins), row);
        && id == (if r.Some? then Some(old(admins).next) else None)
        && Snapshot() == old(Snapshot()).(admins := if r.Some? then r.value else old(admins))
    {
      var r := AdminCreate(admins, row);
      id := if r.Some? then Some(admins.next) else None;
      if r.Some? {
        admins := r.value;
      }
    }

    /** `admin.update(...)` / `admin.save()`: no validator applies to the columns the handlers change. */
    method SaveAdmin(id: int, a: Admin)
      requires id in admins.rows
      modifies this
      ensures Snapshot() == old(Snapshot()).(admins := old(admins).(rows := old(admins).rows[id := a]))
    {
      admins := admins.(rows := admins.rows[id := a]);
    }

    /** `admin.destroy()` */
    method DestroyAdmin(id: int)
      modifies this
      ensures Snapshot() == old(Snapshot()).(admins := Without(old(admins), id))
    {
      admins := Without(admins, id);
    }
  }
}
