# Memories gallery API — a Dafny model of its request core

The system is a small Express/Mongoose backend for a gallery of "memories".
Each memory is an uploaded image or video plus a title, description,
location and tags. This project models the parts of it that decide what
happens to a request:

- **`controllers/memoryController.js`**: the five handlers (create, list,
  get, update, delete). They are modelled as methods of the class
  `MemoryController.Controller`. The class holds three fields that the
  handlers update in place:
  - `records`, the memories collection, keyed by `_id`;
  - `blobs`, the public ids present in the blob store;
  - `log`, the mutating outside calls made so far.

  The tag split, the `mediaType` derivation and the `location` default are
  functions beside the class.
- **`config/cloudinary.js`**: `deleteFile`. Its public-id extraction
  (`Cloudinary.PublicId`) is a pure function. Its guard, destroy call and
  rethrow are the method `Controller.DeleteFile`.
- **`models/Memory.js`**: the schema. `MemoryModel.Build` casts the assigned
  values through the trim setters and then runs the validators (required,
  maxlength counted in UTF-16 units, the mediaType enum). The
  `createdAt`/`updatedAt` timestamps are kept by `Touch`.
- **`routes/memories.js`**: the upload middleware, modelled as
  `Routes.Admit`. It covers the `media` field, the file filter, the disk
  storage's destination and file name, and the 50 MB limit. The router
  table is `Routes.Table`, and `Routes.Dispatch` picks a route from it.
- **`middleware/auth.js`**: `protect`. `Auth.Decide` is the decision and the
  outside calls it makes. `Auth.Exchange.Protect` applies it to a request.

Every outside call that can fail becomes a parameter saying whether it
throws and with what: the database query or write, `save()`, the blob
store's `destroy`, `jwt.verify` and the user lookup. The new document's
`_id`, `Date.now()` and `Math.random()` are parameters too. The `:id`
route parameter is also a parameter: an `Option`, absent when it is not a
valid ObjectId.

Where the code and its comments (or the intended design) differ, the model
follows the code:

- **Missing-fields cleanup can fail the request.** In create, the cleanup
  delete after a missing title or description is not wrapped in its own
  `try`. A failing destroy therefore reaches the outer catch, which sends a
  500 (or a 400 for a ValidationError) instead of `MISSING_REQUIRED_FIELDS`.
  The cleanup after a failed `Memory.create` does swallow its error.
- **Update with a new file always fails.** The file branch of update calls
  `path.join` and `fs`, which the controller never imports. The
  ReferenceError lands in the catch: a 500, nothing saved, no blob
  deleted, and the new upload is left behind.
- **Delete always uses the media URL.** `cloudinaryPublicId` is not a
  schema path, so strict mode drops it on create. Delete therefore always
  takes the `mediaUrl` fallback. That URL is the local disk path
  `uploads/memory-<time>-<suffix><ext>`, so destroy is asked for
  `memory-<time>-<suffix>` (`DeleteDestroysUploadName`). The
  `gallery-app` folder of the configured blob storage never appears in
  the extracted id (`Cloudinary.FolderDropped`).
- **Update keeps empty tags.** Update splits and trims the tags but does
  not filter out empty ones. Create does filter them
  (`MemoryController.TagsDiffer`).
- **Duplicate-key errors.** The schema's only unique index is `_id`, so
  an insert whose id is taken fails with a duplicate key. The write's
  other failures are a parameter that may carry any error. The catch
  tests only the error's code, so any error with code 11000 is answered
  `DUPLICATE_TITLE`, whichever step threw it (`CreateCall`,
  `CreateFailure`).
- **No memories route runs `protect`.** No route of `routes/memories.js`
  attaches it (`Routes.TableMiddleware`). Whether the authentication
  routes mounted by `server.js` use it is outside this model. It accepts
  any header that starts with `Bearer`, case-sensitively and with or
  without a space after it.

## Model

| member | source | states |
|---|---|---|
| Js.Split | config/cloudinary.js:30 | `split` with a one-character separator yields at least one piece, and no piece contains the separator |
| Js.SplitLength | controllers/memoryController.js:175 | splitting yields exactly one more piece than the string has separators |
| Js.JoinSplit | config/cloudinary.js:30 | joining the pieces of a split with the separator gives back the original string |
| Js.SplitJoin | controllers/memoryController.js:46 | splitting a join of separator-free pieces gives back exactly those pieces |
| Js.SplitPrefix | config/cloudinary.js:30 | a separator-free prefix is glued onto the first piece of the split of what follows it |
| Js.LastPieceAfterSep | config/cloudinary.js:30 | the last piece of `a + sep + q` is the last piece of `q` |
| Js.Trim | controllers/memoryController.js:46 | the result of `trim` has no whitespace at either end and is no longer than the input |
| Js.TrimRemovesWhitespace | controllers/memoryController.js:46 | every string is its trimmed value with only whitespace before and after it |
| Js.TrimPadded | models/Memory.js:7 | trimming a trimmed string wrapped in any whitespace gives back exactly that string |
| Js.TrimIdempotent | models/Memory.js:7 | trimming an already trimmed string changes nothing |
| Js.TrimWithin | controllers/memoryController.js:175 | trim only removes characters: one absent from the input is absent from the result |
| Js.Utf16Length | models/Memory.js:8 | `.length`, which maxlength counts, is at least the number of code points and at most twice it |
| Js.Utf16LengthChar | models/Memory.js:8 | a code point above U+FFFF counts two UTF-16 units, any other one |
| Js.Utf16LengthConcat | models/Memory.js:8 | the length of a concatenation is the sum of the lengths |
| Js.Decimal | routes/memories.js:19 | `String(n)` consists of digits only, with no leading zero unless n is 0 |
| Js.DecimalRoundTrip | routes/memories.js:19 | reading back the decimal rendering of a number gives the number |
| Js.DecimalInjective | routes/memories.js:19 | two numbers render alike only when they are equal |
| Cloudinary.LastSegment | config/cloudinary.js:30 | `split('/').pop()` is a '/'-free suffix of the URL, preceded by '/' unless it is the whole URL |
| Cloudinary.PublicId | config/cloudinary.js:30 | the extracted id contains neither '/' nor '.' and is a prefix of the last segment |
| Cloudinary.LastPieceIsSuffix | config/cloudinary.js:30 | the last piece of a split is a suffix of the string, preceded by the separator unless it is the whole string |
| Cloudinary.FirstPieceIsPrefix | config/cloudinary.js:30 | the first piece of a split is a prefix of the string, followed by the separator unless it is the whole string |
| Cloudinary.PublicIdOf | config/cloudinary.js:30 | for any directory ending in '/', a name without '/' or '.', and an extension starting with '.', the extracted id is exactly the name |
| Cloudinary.PublicIdOfBareId | config/cloudinary.js:30 | an id without '/' or '.' passes through the extraction unchanged |
| Cloudinary.FolderDropped | config/cloudinary.js:18-30 | a blob under the `gallery-app` folder is destroyed under its bare name, never under `gallery-app/<name>` |
| Cloudinary.PublicIdOfDeliveryUrl | config/cloudinary.js:30 | a delivery URL `.../gallery-app/abc.jpg` yields `abc` |
| Cloudinary.PublicIdOfTwoDots | config/cloudinary.js:30 | the name is cut at its first dot: `a/b/c.v2.png` yields `c` |
| Cloudinary.PublicIdOfDotFile | config/cloudinary.js:30 | a name that is all extension, `x/.jpg`, yields the empty id |
| MemoryModel.CastTrimmed | models/Memory.js:4-27 | a string value cast for a `trim: true` path is stored trimmed |
| MemoryModel.TrimEach | models/Memory.js:28-31 | every tag goes through its trim setter: the same number of tags, each trimmed |
| MemoryModel.Build | models/Memory.js:3-34 | a document is written iff title is a string that trims to 1..100 UTF-16 units, description is not an array and trims to at most 1000, location is not an array, and mediaUrl is non-empty; what is written is valid and holds exactly the trimmed values |
| MemoryModel.BuiltNormalized | models/Memory.js:3-31 | every text value a successful write stores has been trimmed |
| MemoryModel.RebuildUnchanged | models/Memory.js:3-34 | assigning a valid stored memory's own values back to it writes it unchanged: the setters are idempotent |
| MemoryModel.TrimEachCons | models/Memory.js:28-31 | the setters act tag by tag: the first tag is trimmed in place and the rest go through their own setters |
| MemoryModel.TrimEachKeeps | models/Memory.js:28-31 | tags that are already trimmed pass through their setters unchanged |
| MemoryModel.SetterKeeps | models/Memory.js:24-27 | a stored optional value, assigned again, casts without error to itself |
| MemoryModel.BlankTitleRejected | models/Memory.js:4-9 | a title of only whitespace passes a truthiness check but is rejected by `required` once trimmed |
| Routes.Round | routes/memories.js:19 | `Math.round` gives the integer within half a unit of its argument |
| Routes.RandomSuffix | routes/memories.js:19 | the random suffix is an integer in 0..10^9 within half a unit of `rand * 1e9` |
| Routes.ExtName | routes/memories.js:20 | `path.extname` is empty or a single '.'-led extension without '/', and a suffix of the path without its trailing slashes |
| Routes.ExtNameOf | routes/memories.js:20 | a name without '/' ending in a '.'-led extension with no further '.' has exactly that extension, whatever dots its non-empty stem holds (".." excepted) |
| Routes.ExtNameNoDot | routes/memories.js:20 | a name with no '.' has no extension |
| Routes.ExtNameDotFile | routes/memories.js:20 | a dot-file whose only '.' is the leading one has no extension |
| Routes.StoredFilename | routes/memories.js:18-22 | the stored name starts with `memory-` and ends with the original name's extension |
| Routes.Admit | routes/memories.js:14-45 | an upload is stored iff it comes under `media`, its type is image/* or video/*, and it is at most 50 MB; a larger one fails the limit; a stored file lies under `uploads/` with the generated name and keeps its type, original name and size |
| Routes.StoredPathPublicId | routes/memories.js:15-22 | deleting by a stored file's path destroys `memory-<time>-<suffix>` |
| Routes.StoredFilenameInjective | routes/memories.js:19-21 | two uploads with the same original name get the same stored name only when both time and rounded suffix agree |
| Routes.StemInjective | routes/memories.js:19 | `<time>-<suffix>` determines both numbers |
| Routes.MatchItem | routes/memories.js:53-54 | `/:id` binds the id from both "/" + id and "/" + id + "/" |
| Routes.MatchPath | routes/memories.js:48-54 | `/` matches exactly "" and "/"; `/:id` matches only a path that is "/" + id, with or without a trailing "/", for a non-empty id without "/", and binds that id |
| Routes.DispatchIn | routes/memories.js:48-57 | the chosen route handles the request and is the first one in the table that does; no route is chosen iff none handles it |
| Routes.DispatchCollection | routes/memories.js:48-51 | `/` sends GET to the listing and POST to create, and serves no PUT or DELETE |
| Routes.DispatchItem | routes/memories.js:53-57 | `/:id` sends GET, PUT and DELETE to their handlers with the id, and serves no POST |
| Routes.TableMiddleware | routes/memories.js:48-57 | exactly the POST and PUT routes run the single-file upload of `media`, and no route of this router runs `protect` |
| Auth.BearerToken | middleware/auth.js:15 | `split(' ')[1]` exists iff the header has a space, and contains no space |
| Auth.BearerTokenOf | middleware/auth.js:15 | the token is what lies between the first space and the next space or the end |
| Auth.BearerTokenExamples | middleware/auth.js:15 | `Bearer abc` gives `abc`, `Bearer` gives none, `Bearer  abc` gives the empty token |
| Auth.Decide | middleware/auth.js:5-46 | 'no token' iff the header is not a truthy string starting with `Bearer`, with no outside call then; the request proceeds iff verification decodes and the lookup finds the user, and then with that user; every denial is one of the three 401 messages; verification always comes first, a throwing verification is the only call, and a decoded token is followed by exactly one user lookup |
| Auth.DenialReasons | middleware/auth.js:18-38 | 'token failed' iff verification or the lookup threw; 'user not found' iff the lookup found nothing |
| Auth.PrefixNeedsNoSpace | middleware/auth.js:9-15 | a header `Bearer<rest>` without a space passes the scheme test and is verified with an absent token |
| Auth.SchemeIsCaseSensitive | middleware/auth.js:9-12 | any other six-character scheme (`bearer`, `Basic `) is 'no token' without an outside call |
| Auth.Exchange.Protect | middleware/auth.js:5-46 | exactly one of a 401 with the decided message and `next()` with the user set; the calls made are those of `Decide` |
| MemoryController.DropEmpty | controllers/memoryController.js:46 | the filter keeps no empty tag, keeps tag text intact, and is the identity when none is empty |
| MemoryController.DropEmptyCounts | controllers/memoryController.js:46 | every non-empty tag is kept as often as it occurs |
| MemoryController.DropEmptyConcat | controllers/memoryController.js:46 | the filter keeps order: filtering a concatenation concatenates what is kept of each part |
| MemoryController.DropEmptyOne | controllers/memoryController.js:46 | a single tag is kept exactly when it is non-empty |
| MemoryController.CreateTags | controllers/memoryController.js:45-47 | create's tags are trimmed, non-empty and comma-free, and empty unless the field is a non-empty string |
| MemoryController.UpdateTags | controllers/memoryController.js:175 | update's tags number one more than the commas, each trimmed and comma-free |
| MemoryController.CreateTagsOfList | controllers/memoryController.js:45-47 | a comma-joined list of trimmed non-empty tags comes back from create as that list |
| MemoryController.UpdateTagsOfList | controllers/memoryController.js:175 | a comma-joined list of trimmed tags, empty ones included, comes back from update as that list |
| MemoryController.UpdateTagsOfPadded | controllers/memoryController.js:175 | for any whitespace around each comma-free name, update's tag `i` is the trim of piece `i`: the names come back exactly |
| MemoryController.CreateTagsOfPadded | controllers/memoryController.js:45-47 | the same at create for non-empty names: the padding is trimmed away and the names come back exactly |
| MemoryController.CreateDropsWhatUpdateKeeps | controllers/memoryController.js:46 | create's tags are update's tags with the empty ones dropped |
| MemoryController.TagsDiffer | controllers/memoryController.js:175 | for `a,,b` update keeps the empty middle tag and create drops it |
| MemoryController.SpacedTags | controllers/memoryController.js:45-47 | `a, b,,` gives the tags `[a, b]` at create |
| MemoryController.CreateTagsExample | controllers/memoryController.js:45-47 | example: `beach, sunset,,` gives `["beach", "sunset"]` at create |
| MemoryController.FilteredMediaType | controllers/memoryController.js:49 | behind the upload filter, `video` is only given to `video/*` types |
| MemoryController.UnknownLocationTrimmed | controllers/memoryController.js:44 | the default location survives its trim setter unchanged |
| MemoryController.CreatedContent | controllers/memoryController.js:41-51 | a created memory holds the trimmed title, description and location (or `Unknown`), the upload's path, the derived media type, and create's tags |
| MemoryController.CreatedLocation | controllers/memoryController.js:44 | a created memory's location is the trimmed body location when truthy, `Unknown` otherwise |
| MemoryController.UpdatedContent | controllers/memoryController.js:172-175 | an update stores the trimmed value of each truthy field, keeps each falsy one, replaces tags by update's split, and never changes the media fields |
| MemoryController.EmptyUpdateKeeps | controllers/memoryController.js:172-175 | an update whose body gives nothing writes the stored content back unchanged |
| MemoryController.Touch | models/Memory.js:33 | on a save createdAt never moves; updatedAt becomes the save time exactly when some path changed, and stays otherwise |
| MemoryController.SaveResult | controllers/memoryController.js:189 | `save()` succeeds iff the reassigned document passes the schema and the write does not throw; it stores exactly the content the schema builds from the merged document (`UpdatedContent`), valid and trimmed, with createdAt unchanged and updatedAt moved by the timestamps rule (`Touch`) |
| MemoryController.CreateCall | controllers/memoryController.js:41-51 | `Memory.create` inserts iff the document passes the schema, the id is free and the write does not throw; a failing schema is a ValidationError, a taken id a duplicate key, and otherwise the write's own error is reported as thrown |
| MemoryController.CreateFailure | controllers/memoryController.js:60-103 | a failed insert is answered with 400 for a duplicate key or a ValidationError and 500 otherwise, with the matching error code |
| MemoryController.BlobsAfter | config/cloudinary.js:31 | a delete removes at most the extracted id from the blob store |
| MemoryController.DeleteUsesMediaUrl | controllers/memoryController.js:219-234 | for every valid stored memory, delete destroys by its media URL |
| MemoryController.DeleteDestroysUploadName | controllers/memoryController.js:227-230 | deleting a memory created from a stored upload destroys `memory-<time>-<suffix>` |
| MemoryController.FirstExists | controllers/memoryController.js:111 | a non-empty collection has a memory that sorts first |
| MemoryController.NewestFirst | controllers/memoryController.js:111 | the listing holds every stored memory exactly once under its id, newest first |
| MemoryController.Controller.DeleteFile | config/cloudinary.js:25-36 | a falsy argument is a no-op; otherwise one destroy of the extracted id, which leaves the store on success and rethrows its fault unchanged |
| MemoryController.Controller.CreateMemory | controllers/memoryController.js:7-104 | no file: 400 and nothing changes; a missing title or description: the upload is deleted and a failing delete reaches the outer catch; otherwise the insert happens or the upload is deleted once and the error classified; every stored memory stays valid and trimmed |
| MemoryController.Controller.InsertOrCleanUp | controllers/memoryController.js:39-82 | an accepted insert stores the memory stamped with the current time and answers 201; a rejected one tries one destroy of the upload, swallows its failure, and answers by the error |
| MemoryController.Controller.GetMemories | controllers/memoryController.js:109-125 | the reply lists every memory exactly once, newest first, with their count; a failed query is a 500 |
| MemoryController.Controller.GetMemory | controllers/memoryController.js:130-153 | the reply holds the memory under that id, a 404 when there is none, a 500 when the query fails or the id is malformed |
| MemoryController.Controller.UpdateMemory | controllers/memoryController.js:158-202 | 404 for an unknown id; a 500 with no write for array tags or a new file; otherwise one save whose outcome is `SaveResult`; blobs never change |
| MemoryController.Controller.Save | controllers/memoryController.js:189-194 | one write: on success the record is replaced and returned with 200, on failure a 500 with the record unchanged |
| MemoryController.Controller.DeleteMemory | controllers/memoryController.js:207-252 | for a stored memory: at most one destroy, whose failure is swallowed, then the record delete; the record is gone iff that delete succeeds |

## Left out

- `server.js`, `minimal-server.js` and the connection test scripts: the
  server wiring and database connection retries are not part of this
  model.
- Logging (`console.*`) is not modelled. Neither is the `details` key of
  create's outer catch, which carries the error message only when
  `NODE_ENV` is `development`.
- The blob-store SDK is not modelled. `destroy` is an outcome parameter,
  and a successful destroy removes the id from `blobs`.
- The `CloudinaryStorage` upload backend is not modelled, because the
  router uses multer's disk storage. Only its folder name appears
  (`Cloudinary.UploadFolder`). As a result, the files multer writes under
  `uploads/` are never in `blobs`, and no handler removes them. Create's
  cleanup and delete ask the blob store to destroy
  `memory-<time>-<suffix>`, which the disk storage never put there
  (`DeleteDestroysUploadName`).
- MongoDB and Mongoose are not modelled. Queries and writes are outcome
  parameters over a map.
- ObjectId casting is reduced to a present or absent `Id`.
- A JSON or urlencoded body field that is a number, boolean, null or object
  is not a separate case. The handlers treat each like a missing field, a
  text field or an array (`Js.Field`), so the model covers it through
  those three.
- Ids are compared as numbers.
- The text index (`models/Memory.js:37`) is not modelled. No handler
  searches.
- `MemoryController.NewestFirst`: ties in `createdAt` are listed in
  ascending id order. MongoDB does not fix that order.
- `Routes.RandomSuffix`: `Math.random()` is a real in [0, 1), and
  floating-point rounding of `rand * 1e9` is not modelled.
- `Js.Decimal`: `Date.now()` is a natural number, rendered as decimal
  digits. The exponent notation JavaScript uses from 10^21 upward is not
  modelled.
- Express is modelled only as the route table. Not modelled:
  - percent-decoding of `:id`;
  - case-insensitive matching;
  - HEAD and OPTIONS;
  - the error responses multer's errors produce downstream.
- Not modelled: multer's removal of a partly written file past the limit,
  and the body parsing.
- Not modelled: `jwt.verify`'s checks and the User model. Both are
  outcome parameters of `protect`.
- What `next()` runs after `protect` is not modelled.
- `Auth.Exchange.Protect` records `req.user` but not the user fields the
  lookup's `-password` projection removes.
- `MemoryController.Controller.UpdateMemory`: the file branch ends in the
  ReferenceError before `path.join`. The unreachable filesystem calls
  after it are not modelled.
- Concurrency is not modelled. Each handler runs to completion against the
  store, and interleavings between the awaits of two requests are not
  covered.
