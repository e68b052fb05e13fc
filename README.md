# Restaurant and photography image backend, modelled in Dafny

This project models the core of an Express/Sequelize backend for a restaurant
site. Its main job is to keep image files on disk in step with database rows,
for three kinds of image: restaurant covers, restaurant gallery photos and
photography photos. Around that sit small state machines for admin accounts:
registration awaiting manual approval, login, a one-time-code password reset,
and the bearer-token gate in front of the admin routes.

The shared state is the class `Store.Backend`. It holds the upload
directories' files (`map<Path, Blob>`, where a blob is an upload as received
or a quality-75 JPEG re-encoding of another blob) and the four tables
`restaurants`, `restaurant_photos`, `photography_photos` and `admins`. Each
table is a map from the auto-increment id to the row, plus the next id. Each
method of `Backend` is one call the handlers make into `fs` or into a
Sequelize model.

Each handler is a method over a `Backend` that makes the same calls in the
same order as the source. Its postcondition ties the status it answers and
the new state to a pure function of the old state, named `...Effect`. The
properties of the handler are proved as that function's postconditions and
as lemmas about it. `Store.Integrity` collects what MySQL keeps true:
- ids come from the counter;
- slugs and e-mails are unique;
- every gallery photo belongs to an existing restaurant.

Every handler preserves it.

Foreign code enters as the functions of `Store.Libs`:
- slugify;
- sharp's JPEG encoder, which may fail;
- bcrypt's hash and compare;
- jsonwebtoken's sign and verify, which may fail.

The clock reading, the random number in upload names, the generated one-time
code and approval token, the verdict of the request validators and whether an
e-mail went out are all parameters.

Modules, one file each:
- `text.dfy` (`Optional`, `Text`): JavaScript's `split` with a one-character separator, and the decimal rendering of whole numbers.
- `paths.dfy` (`Paths`): upload directories, stored file names, `path.extname`, and public URLs with `path.resolve('.' + url)`.
- `tables.dfy` (`Tables`): tables, insert, bulk insert, `findOne`, `findAll` by id and by `createdAt` descending.
- `http.dfy` (`Http`): response statuses.
- `store.dfy` (`Store`): rows, the file store, integrity, and the `Backend` class.
- `upload.dfy` (`Upload`): the multer uploaders and what multer does with a multipart request before the handler runs.
- `restaurant_controller.dfy`, `photography_controller.dfy`, `password_controller.dfy`, `approval_controller.dfy`, `auth_controller.dfy`, `auth_middleware.dfy`: one module per source file.
- `routes.dfy` (`Routes`): an uploader and its handler composed as a route runs them.

## Model

| member | source | states |
|---|---|---|
| Text.Split | middleware/auth.js:15 | `split(' ')` gives at least one field, and no field contains the separator |
| Text.SplitJoin | middleware/auth.js:15 | joining the fields of a split with the separator gives back the string |
| Text.Decimal | config/upload.js:11 | a whole number is rendered as a non-empty string of digits, with no leading zero; it starts with `0` exactly for zero |
| Text.DecimalRoundTrip | config/upload.js:11 | reading the rendered digits back gives the number |
| Paths.Extname | config/upload.js:13 | the extension is empty or starts with the last dot and ends the name; it is empty exactly for `..` and names with no dot after the first character |
| Paths.StoredNameKeepsExtension | config/upload.js:11-14 | a stored file name ends with the extension of the client's file name |
| Paths.StoredNameParts | config/upload.js:11-14 | the clock reading and the random number can be read back out of a stored name |
| Paths.StoredNamesDistinct | config/uploadPhotography.js:10-14 | uploads whose clock reading or random number differ get different stored names |
| Paths.ResolvePublicUrl | controllers/restaurantController.js:63 | resolving `'.' + url` for a stored URL names the file the URL was made from |
| Paths.StoredNameIsNotCompressed | config/upload.js:11-14 | a stored name starts with a digit, so in the restaurant directory it is never the `compressed-` file of any upload |
| Paths.CompressedPathDiffers | controllers/restaurantController.js:36-38 | the `compressed-` output path never equals the upload's own path, whatever directory the upload went to |
| Upload.FileFilter | config/upload.js:17-20 | a MIME type passes iff it is one of image/jpeg, image/png, image/webp, image/jpg |
| Upload.KeptParts | config/upload.js:19 | the parts handed on are exactly the parts of the request that the filter keeps |
| Upload.KeptPartsConcat | config/upload.js:19 | filtering a request made of two pieces hands on the kept parts of the first piece, then those of the second |
| Upload.KeptPartsInOrder | config/upload.js:19 | the parts are handed on in the order they arrive: one more part adds itself at the end exactly when the filter keeps it |
| Upload.Take | config/upload.js:22-32 | no multer error iff the count is within the limit and every part has the uploader's field and, unless filtered out, is within the size limit; then the accepted parts are the kept ones; accepted parts never exceed the count or the size limit |
| Upload.Write | config/upload.js:9-15 | every accepted disk upload is written under its stored name; existing files stay; no other file appears |
| Upload.WriteKeepsOthers | config/upload.js:9-15 | a file at a path no accepted part is stored at keeps its content |
| Upload.WriteLastWins | config/upload.js:9-15 | each stored path holds an upload of the size of the last part stored there |
| Upload.StoredFilesHoldUploads | config/upload.js:9-15 | stated over the files reported to the handler: each holds an upload of its own size unless a later file went to the same path; every new path is one of theirs; every other file is unchanged |
| Upload.Receive | config/upload.js:22-32 | the request gets through iff `Take` reports no error; it then carries one stored file per kept part, in order, each on disk, and the files are those `Write` leaves; on an error the files multer wrote are removed; the tables are not touched |
| Upload.ReceivedFilesHoldUploads | config/upload.js:9-32 | after a request gets through, each file the handler receives holds an upload of its size (unless a later file of the request went to the same path), no other new file appears, and every other file is as it was |
| Tables.Insert | models/Restaurant.js:9 | the new row gets the counter's id, and the counter advances by one |
| Tables.InsertAll | controllers/restaurantController.js:122 | row `i` of a bulk insert gets id `next + i`; earlier rows are unchanged and no other id appears |
| Tables.Where | controllers/restaurantController.js:163-167 | the ids returned are exactly the matching rows, in increasing order |
| Tables.FindOne | controllers/restaurantController.js:32 | a matching row, or none exactly when no row matches; among several matches the model picks the smallest id |
| Tables.FindByPk | controllers/restaurantController.js:53 | the row under that id, or none exactly when the id is absent |
| Tables.InsertByCreated | controllers/restaurantController.js:166 | inserting into a newest-first list keeps it newest-first and adds exactly that id |
| Tables.NewestFirst | controllers/restaurantController.js:135 | a permutation of the ids, ordered by non-increasing `createdAt` |
| Tables.DistinctRearranged | controllers/restaurantController.js:135 | a permutation of a list without repeated ids has no repeated ids |
| Store.InitialState | models/Restaurant.js:7-34 | empty tables and no files satisfy the integrity constraints |
| Store.PhotosNotOf | controllers/restaurantController.js:92 | exactly the photos of other restaurants remain, unchanged |
| Store.PhotosBulkCreate | controllers/restaurantController.js:122 | the bulk insert succeeds iff every row's `restaurantId` exists; it then equals `InsertAll` and keeps every photo owned |
| Store.AdminWithEmail | controllers/authController.js:19 | none iff no admin has the e-mail; else an admin with it, the only one under the unique index |
| Store.AdminWithToken | controllers/approvalController.js:8 | none iff no admin holds the token; else an admin holding it, which in the model is the one with the smallest id |
| Store.AdminSaveKeepsIntegrity | controllers/approvalController.js:12-13 | saving an admin under its own e-mail keeps the constraints |
| Store.AdminDestroyKeepsIntegrity | controllers/approvalController.js:18 | destroying an admin keeps the constraints |
| Store.Backend.Stat | controllers/restaurantController.js:10 | the file's size, or none when it is missing |
| Store.Backend.Unlink | controllers/restaurantController.js:17 | succeeds iff the file existed; afterwards it is gone and nothing else changed |
| Store.Backend.Rename | controllers/restaurantController.js:19 | moves the file, failing when the source is missing |
| Store.Backend.WriteJpeg75 | controllers/restaurantController.js:14-16 | writes the encoder's output for the input at the output path, failing on a missing input, the same path, or an encoder error |
| Store.Backend.CreateRestaurant | controllers/restaurantController.js:40-44 | inserts the row unless the name validator or the unique slug index refuses it |
| Store.Backend.UpdateRestaurant | controllers/restaurantController.js:73 | updates the supplied columns unless the name validator or the unique slug index refuses it |
| Store.Backend.DestroyRestaurant | controllers/restaurantController.js:93 | removes the restaurant, with the foreign key's cascade on its photos |
| Store.Backend.BulkCreatePhotos | controllers/restaurantController.js:122 | inserts all the rows, or none |
| Store.Backend.SetPhotoUrl | controllers/restaurantController.js:191 | changes only that photo's `imageUrl` |
| Store.Backend.DestroyPhoto | controllers/restaurantController.js:206 | removes that photo row |
| Store.Backend.DestroyPhotosOf | controllers/restaurantController.js:92 | removes every photo of the restaurant |
| Store.Backend.CreatePhotography | controllers/photographyController.js:13-15 | inserts one photography row under the next id |
| Store.Backend.DestroyPhotography | controllers/photographyController.js:43 | removes that photography row |
| Store.Backend.CreateAdmin | controllers/authController.js:26-32 | inserts the admin unless the name validator or the unique e-mail index refuses it |
| Store.Backend.SaveAdmin | controllers/passwordController.js:22 | replaces that admin's record |
| Store.Backend.DestroyAdmin | controllers/approvalController.js:18 | removes that admin |
| RestaurantController.NeedsCompression | controllers/restaurantController.js:10-13 | the integer test agrees with `size / (1024 * 1024) > 5` on reals, so exactly 5 MiB is not recompressed |
| RestaurantController.CompressEffect | controllers/restaurantController.js:9-21 | success iff the input exists (and, over 5 MiB, differs from the output and encodes); then the output exists and the input is gone; it holds a q75 JPEG of the input over 5 MiB, else the input unchanged; other files are untouched; on failure nothing changes |
| RestaurantController.CompressImageIfNeeded | controllers/restaurantController.js:9-21 | stat, then encode and unlink or rename, with the effect `CompressEffect` describes |
| RestaurantController.CreateRestaurantEffect | controllers/restaurantController.js:24-48 | 422 without a file, then 422 without a name, then 409 for a used slug, each changing nothing; 201 iff those pass, the name is valid and compression succeeds; then one row with the slugified name and the `compressed-` URL, whose file exists, and the files are exactly those `CompressEffect` leaves for the upload |
| RestaurantController.CreateRestaurant | controllers/restaurantController.js:24-48 | the handler's status and new state are `CreateRestaurantEffect`'s |
| RestaurantController.CreateRejectionKeepsUpload | controllers/restaurantController.js:26-33 | a create rejected with 422 or 409 leaves the upload multer wrote on disk |
| RestaurantController.UpdateRestaurantEffect | controllers/restaurantController.js:51-76 | 404 for an unknown id, changing nothing; for a known id, 200 exactly when the upload (if any) compresses and the name (if any) passes the validator with a slug no other row has; on 200, name and recomputed slug when a name is given and the new cover when a file is, all else unchanged; a slug another row has gives 500; with a new cover, the old cover file is removed and the files are then exactly those `CompressEffect` leaves for the upload, so on 200 the new cover is on disk, whether or not the update succeeds the old one is gone, and no other file changes |
| RestaurantController.UpdateRestaurant | controllers/restaurantController.js:51-76 | the handler's status and new state are `UpdateRestaurantEffect`'s |
| RestaurantController.UpdateFailureLeavesDanglingCover | controllers/restaurantController.js:62-73 | a refused update with a new cover answers 500 and leaves the row naming a cover file that is gone |
| RestaurantController.DeleteRestaurantEffect | controllers/restaurantController.js:79-97 | 404 changes nothing; otherwise the cover and gallery files are gone, the restaurant row and exactly its photos are removed, both id counters stay as they were, and everything else is unchanged |
| RestaurantController.CascadeFindsNothing | controllers/restaurantController.js:92-93 | the cascade after the explicit photo delete removes nothing more |
| RestaurantController.UnlinkPhotoFiles | controllers/restaurantController.js:88-90 | the loop removes exactly the files of the listed photos |
| RestaurantController.DeleteRestaurant | controllers/restaurantController.js:79-97 | the handler's status and new state are `DeleteRestaurantEffect`'s |
| RestaurantController.CompressAll | controllers/restaurantController.js:111-120 | when all uploads compress, each had a path and the last one's output exists |
| RestaurantController.CompressAllOutputs | controllers/restaurantController.js:111-120 | when no upload sits where another is compressed to and all uploads compress, every upload's `compressed-` file exists and every upload is gone from its own path |
| RestaurantController.CompressAllFrame | controllers/restaurantController.js:111-120 | a file that is neither an upload nor a `compressed-` output of the loop is untouched |
| RestaurantController.CompressAllStopsAtFailure | controllers/restaurantController.js:111-120 | after the first failing upload the later ones are not processed |
| RestaurantController.GalleryRows | controllers/restaurantController.js:111-120 | one row per upload, in order, with the restaurant's id and that upload's `compressed-` URL |
| RestaurantController.AddGalleryPhotosEffect | controllers/restaurantController.js:100-129 | 404 for an unknown restaurant before 422 for no files; 201 iff every upload compresses; then the rows are bulk-inserted |
| RestaurantController.GalleryInsertLayout | controllers/restaurantController.js:111-122 | upload `i` gets photo id `next + i`, owned by the restaurant and naming its compressed file |
| RestaurantController.RowsNameFilesOnDisk | controllers/restaurantController.js:111-122 | when upload `i` became row `first + i` naming its compressed file, and every compressed file is on disk, every new row names a file on disk |
| RestaurantController.GalleryRowsOnDisk | controllers/restaurantController.js:111-122 | after a completed loop and bulk insert, every new row names a file the loop left on disk |
| RestaurantController.AddedPhotosNameFilesOnDisk | controllers/restaurantController.js:100-129 | after a 201, the counter advanced by the number of uploads, every new row names a file on disk, and every upload is gone from its own path, provided no upload sits where another is compressed to |
| RestaurantController.CompressGallery | controllers/restaurantController.js:111-120 | the loop compresses the uploads in order, stops at the first failure, and collects exactly `GalleryRows` |
| RestaurantController.AddGalleryPhotos | controllers/restaurantController.js:100-129 | the handler's status and new state are `AddGalleryPhotosEffect`'s |
| RestaurantController.UpdateGalleryPhotoEffect | controllers/restaurantController.js:173-194 | 422 without a file, 404 unless the restaurant exists and owns the photo; 200 iff compression succeeds, and then only that row's URL changes; the old file is removed and the files are then exactly those `CompressEffect` leaves for the upload, so it is gone after 200 or 500 |
| RestaurantController.UpdateGalleryPhoto | controllers/restaurantController.js:173-194 | the handler's status and new state are `UpdateGalleryPhotoEffect`'s |
| RestaurantController.DeleteGalleryPhotoEffect | controllers/restaurantController.js:197-210 | 404 unless the photo exists under that restaurant id; else its file and row are removed, the id counter stays, and nothing else changes |
| RestaurantController.DeleteGalleryPhoto | controllers/restaurantController.js:197-210 | the handler's status and new state are `DeleteGalleryPhotoEffect`'s |
| RestaurantController.AllRestaurants | controllers/restaurantController.js:132-140 | every restaurant exactly once, newest first |
| RestaurantController.RestaurantWithPhotos | controllers/restaurantController.js:143-151 | 404 for an unknown id; else exactly that restaurant's photos, each once |
| RestaurantController.GalleryBySlug | controllers/restaurantController.js:154-170 | 404 iff no restaurant has the slug; else exactly its photos, each once, newest first |
| PhotographyController.UploadPhotoEffect | controllers/photographyController.js:8-19 | 422 and no row without a file; else 201 and one row whose URL resolves to the stored upload |
| PhotographyController.UploadPhoto | controllers/photographyController.js:8-19 | the handler's status and new state are `UploadPhotoEffect`'s |
| PhotographyController.DeletePhotoEffect | controllers/photographyController.js:33-47 | 404 for an unknown id; 500 with nothing changed when the file is missing; 200 iff row and file exist, then both are removed and the id counter stays |
| PhotographyController.DeletePhoto | controllers/photographyController.js:33-47 | the handler's status and new state are `DeletePhotoEffect`'s |
| PhotographyController.MissingFileBlocksDelete | controllers/photographyController.js:40-46 | a photo whose file is gone can never be deleted: 500 and the row stays |
| PhotographyController.AllPhotos | controllers/photographyController.js:22-30 | every photography photo exactly once, newest first |
| PasswordController.RequestResetEffect | controllers/passwordController.js:7-35 | 422, then 404 for an unknown e-mail, each changing nothing; otherwise that admin's code and expiry (now + 10 minutes) are overwritten; 200 iff the e-mail is sent |
| PasswordController.RequestReset | controllers/passwordController.js:7-35 | the handler's status and new state are `RequestResetEffect`'s |
| PasswordController.CheckReset | controllers/passwordController.js:193-207 | 422, then 400 for no admin or no pending code, then a wrong code, then an expired one; accepted iff the admin's pending code matches and has not expired |
| PasswordController.VerifyResetEffect | controllers/passwordController.js:191-221 | 200 iff `CheckReset` accepts; then the password becomes the hash of the new one and code and expiry are cleared; any refusal changes nothing |
| PasswordController.VerifyReset | controllers/passwordController.js:191-221 | the handler's status and new state are `VerifyResetEffect`'s |
| PasswordController.VerifyAfterRequest | controllers/passwordController.js:206 | a code just requested is accepted up to and including its expiry instant |
| PasswordController.ExpiredAfterLifetime | controllers/passwordController.js:206 | after its lifetime the code is refused with 400 and nothing changes |
| PasswordController.ResetCannotBeReplayed | controllers/passwordController.js:199-215 | after a successful reset the same request is refused with 400 |
| PasswordController.NewRequestSupersedes | controllers/passwordController.js:19-22 | a second request replaces the pending code, so the first code is refused |
| ApprovalController.ApproveAdminEffect | controllers/approvalController.js:3-23 | 404 exactly when no admin holds the token, and then nothing changes; otherwise 200, where `approve` sets only that admin's `isApproved`; any other action, or none, removes the record |
| ApprovalController.ApproveAdmin | controllers/approvalController.js:3-23 | the handler's status and new state are `ApproveAdminEffect`'s |
| ApprovalController.ApproveIdempotent | controllers/approvalController.js:11-13 | approving twice leaves the state approving once leaves |
| AuthController.RegisterEffect | controllers/authController.js:12-32 | 422, then 409 for a registered e-mail, each changing nothing; 201 iff the name passes the validator; then exactly one unapproved admin with the hashed password and the approval token |
| AuthController.Register | controllers/authController.js:12-32 | the handler's status and new state are `RegisterEffect`'s |
| AuthController.Login | controllers/authController.js:252-284 | 422, then 401 for an unknown e-mail, then 403 when unapproved whatever the password, then 401 for a wrong password; a token signed over `{id, email}` iff the admin exists, is approved and the password matches |
| AuthController.RegisteredAdminAwaitsApproval | controllers/authController.js:262-265 | a freshly registered admin gets 403 at login, whatever password is tried |
| AuthMiddleware.ExtractToken | middleware/auth.js:14-17 | a token iff the header is present, starts with exactly `Bearer `, and the next space-separated field is non-empty; it is that field |
| AuthMiddleware.BearerRoundTrip | middleware/auth.js:14-15 | `Bearer <token>` yields the token back for any non-empty token without spaces |
| AuthMiddleware.Authentication | middleware/auth.js:11-37 | 401 without a token, on a verification failure, or when the admin is gone; otherwise that admin's record and the verified payload |
| AuthMiddleware.Authorization | middleware/auth.js:42-52 | 403 iff authentication passes and the record has a role other than `admin`; otherwise authentication's verdict |
| AuthMiddleware.Request.constructor | middleware/auth.js:11-14 | a request starts with nothing attached |
| AuthMiddleware.Authenticate | middleware/auth.js:11-37 | the gate is `Authentication`'s; on success the admin and payload are attached to the request |
| AuthMiddleware.AuthorizeAdmin | middleware/auth.js:42-52 | the gate is `Authorization`'s; on success, and also on the 403 for a non-admin role, the admin and payload are attached; on a 401 the request is unchanged |
| AuthMiddleware.LoginTokenAuthorizes | middleware/auth.js:11-37 | the token `login` hands out passes the admin gate for that admin |
| Routes.NonImageCoverIsSkipped | config/upload.js:17-20 | a non-image cover is skipped rather than refused: the handler answers 422 and nothing was written |
| Routes.OversizedCoverIsRefused | config/upload.js:22-26 | a cover over 15 MiB is refused by multer with 500 and nothing changes |
| Routes.PhotographyRowNamesStoredFile | routes/photographyRoutes.js:17 | a photography upload answers 201 and its row's URL names a file on disk |
| Routes.GalleryRowsNameStoredFiles | routes/restaurantRoutes.js:64-69 | after a 201 from the gallery route, one new row per kept part, each naming a file on disk |
| Routes.ReplacePhotoAsRouted | routes/restaurantRoutes.js:32-36 | as routed, replacing a gallery photo answers 500, keeps the row, and the row's old file is gone |
| Routes.ReplacePhotoOnDisk | routes/restaurantRoutes.js:71-76 | with the gallery's disk storage, limit and filter, replacing a photo that can be compressed answers 200, and the row names the compressed upload, which is on disk |

## Left out

- E-mail sending (the approval request in `register`, the code in `requestReset`) is network I/O. `requestReset` takes whether sending succeeded as a parameter; `register` does not wait for it.
- The HTML e-mail templates are presentation only.
- bcrypt, jsonwebtoken, slugify and sharp are foreign code and appear as uninterpreted functions. bcrypt's random salt is not modelled: `hash` is a function.
- JWT expiry is not modelled separately: an expired token is one that `verify` refuses.
- `Date.now()`, `Math.random()` and the OTP generator are inputs. utils/generateToken.js is not part of this model, so the approval token is an input.
- The express-validator chains are not modelled; their verdict is a boolean input, and their 422 body is not modelled.
- Response bodies are not modelled beyond the status, the messages of the authentication gate, the login refusals and the reset checks.
- Express routing, the server bootstrap and `mkdirSync` at load time are wiring. The error handler is modelled only as "a thrown error answers 500".
- controllers/videoController.js is outside the modelled core.
- Concurrency: each handler runs as one sequential step. The interleaving of awaited calls between requests is not modelled.
- Timestamps: `createdAt` is an input integer, and `updatedAt` is not modelled. The second precision of MySQL `DATETIME` is not modelled, so `resetOTPExpires` keeps milliseconds.
- Column lengths are not enforced: `STRING(n)` limits, such as the 6 characters of `resetOTP`, and MySQL's truncation or refusal of longer values. The `len` validators on `name` and `adminName` are enforced.
- The `isEmail` validator on `Admin.email` and the `isIn: [['admin']]` validator on `role` are not enforced: rows keep whatever the handlers write.
- Route parameters are integers. A non-numeric `:id` is not modelled, so `Number(id)` in `deleteGalleryPhoto` is the identity.
- The attribute projections of the getters (`attributes: [...]`) are not modelled; the getters return ids.
- Tables.NewestFirst: the order among rows with equal `createdAt` is left unspecified, as it is in MySQL.
- RestaurantController.GalleryInsertLayout: states only the new rows. That earlier rows are untouched and no other id appears is stated once, by `Tables.InsertAll`, which `AddGalleryPhotosEffect` names.
- Upload.Receive: on a multer error the model removes the paths it wrote. A file that existed before at the same stored name is therefore removed too, as multer's cleanup would do after overwriting it.
- MySQL's default collation (`utf8mb4_0900_ai_ci`) compares text ignoring case and accents. The model compares strings exactly. So the slug lookup behind `GET /:slug/photos` (controllers/restaurantController.js:156-158), the slug and e-mail uniqueness checks, and the token lookup at controllers/approvalController.js:8 may match more rows in MySQL than in the model: `Pizza-Place` finds `pizza-place` there.
- Tables.FindOne: `findOne` sends `LIMIT 1` with no `ORDER BY`, so MySQL may return any matching row. The model returns the one with the smallest id. This matters only where several rows can match. Under the unique slug and e-mail indexes only one can; `approvalToken` is not unique, so Store.AdminWithToken may name a different admin than MySQL does when two admins share a token.
- Store.AdminWithToken: returns the smallest id among admins holding the token, where MySQL's `LIMIT 1` without `ORDER BY` may return any of them (see Tables.FindOne above).
- Upload.Take: multer ignores a file part whose client file name is empty. The model counts such a part like any other file part.
- The uploaded bytes are not modelled, only their size and whether a blob is a re-encoding of another.

## Findings

| source | as written | input that shows it | evidently intended | confidence | as-written member | corrected member |
|---|---|---|---|---|---|---|
| routes/restaurantRoutes.js:32-36 | the single-photo uploader reads `storage`, `limits` and `fileFilter` from the `uploadGallery` middleware function, which has no such properties, so multer falls back to memory storage with no size limit and no filter; `updateGalleryPhoto` then unlinks the old photo file, finds no `req.file.path` to compress and answers 500, leaving the row naming a deleted file | any `PUT /:id/photos/:photoId` with one image in field `photo`, for an existing photo of that restaurant | the gallery's disk storage in `uploads/restaurants`, its 15 MiB limit and its MIME filter, for field `photo` | high, not executed | Routes.ReplacePhotoAsRouted | Routes.ReplacePhotoOnDisk |
