# Listing images and partial updates, modelled in Dafny

This project models the core of a real-estate listing back end, a Spring
service written in Java. It covers three things:

- **Image-list reconciliation.** `ListingService.syncExistingImages` takes the
  listing's ordered images and an optional "retain list" sent by the client. It
  refuses unknown paths, issues a storage delete for the dropped paths, and
  reorders what is kept. `patch` runs it before it appends newly uploaded
  images.
- **The partial-update merge in `patch`.** Every non-`null` request field
  overrides the listing's column. A blank address is refused. The address is
  stored trimmed, and it is geocoded again only when the trimmed text differs
  from the stored one; a geocoder failure fails the call. A present move-in date is parsed; a blank one clears the
  date.
- **The local image store (`ImageStorageService`).** `store` and `save` give
  each non-empty upload the name `<random UUID><extension>` and return the API
  path `/api/images/<name>`. `extractExtension` keeps only extensions matching
  `\.[A-Za-z0-9]{1,10}`. `load` resolves and normalizes a name, and refuses
  anything that leaves the upload directory, comparing whole path elements.

It also models the `Listing` mutators these rely on (`addImagePath`,
`updateDetails`, `updateSold`), the lookup by id, `patchSold`, `delete`, and the keyword
check of `searchByAddress`.

Modules, one per file:

| file | module | models |
|---|---|---|
| outcomes.dfy | `Outcomes` | `null` (`Option`), thrown exceptions (`Result`/`Failure`) |
| collections.dfy | `Collections` | duplicate-free sequences |
| java_strings.dfy | `JavaStrings` | `String.isBlank`, `trim`, `lastIndexOf`, `Long.toString` |
| unix_paths.dfy | `UnixPaths` | `java.nio.file.Path` on Unix: parse, `resolve`, `normalize`, `startsWith` |
| image_storage.dfy | `ImageStorage` | `ImageStorageService` |
| listing.dfy | `Listings` | the `Listing` entity and its mutators |
| image_sync.dfy | `ImageSync` | `syncExistingImages` |
| listing_service.dfy | `ListingService` | `patch`, `patchSold`, `delete`, `findByIdOrThrow`, the search keyword check |

Modelling choices:

- Entities are immutable values. A mutator returns the updated listing.
- A thrown exception is an `Error`. `@Transactional` rolls a failed call back,
  so an `Error` carries no new state.
- Storage deletes are explicit `Delete(paths)` events. `ImageStorageService`
  shows no `delete` method, so the call is recorded, not interpreted.
- The file system is a map from absolute path (a list of name elements) to
  bytes. A path in the map is a readable file; any other path is a
  directory or nothing, and neither is readable. The constructor's `createDirectories` fails with
  `IllegalStateException` when a file sits on the upload directory's chain;
  once it has succeeded, no file sits there.
- `UUID.randomUUID()` is a parameter `uuid: nat -> Uuid`: the k-th saved upload
  of a call gets `uuid(k)`. `Uuid` is the lower-case 8-4-4-4-12 text of a
  version-4 UUID, as in section 4.4 of RFC 4122.
- Geocoding and `LocalDate.parse` are function parameters. The geocoder
  returns a coordinate or the exception it throws: `HashGeocodingService`
  never fails, while `NcpGeocodingService` refuses a blank query and fails on
  missing keys, a failed call or no result. A parser result of `None` stands
  for `DateTimeParseException`.

Java's `isBlank` (Unicode whitespace) and `trim` (every code up to U+0020)
disagree, and the model keeps both as written:

- U+0001 is not blank, yet it trims to nothing. A patch with address `"\u0001"`
  therefore passes the service's blank check and hands `""` to the geocoder
  (unless `""` is already the stored address). A geocoder that accepts it,
  such as the hash geocoder, leads to the empty address being stored. The
  NCP geocoder refuses it with `IllegalArgumentException("Address must not
  be blank")` instead of the service's BAD_REQUEST.
  `searchByAddress("\u0001")` searches for `""`.
- U+2003 is blank, yet `trim` keeps it.

`JavaStrings.BlankAndTrimDisagree`, `ListingService.PatchStoresEmptyAddress`,
`ListingService.PatchControlCharAddressRejectedByGeocoder` and `ListingService.SearchKeywordControlChar` state these behaviours.

## Model

| member | source | states |
|---|---|---|
| JavaStrings.Trim | src/main/java/panda/listing/ListingService.java:119 | the result is an infix of the input; everything cut off is a code up to U+0020; the result neither starts nor ends with one |
| JavaStrings.TrimIdempotent | src/main/java/panda/listing/ListingService.java:229-232 | trimming an already trimmed path changes nothing |
| JavaStrings.TrimNoop | src/main/java/panda/listing/ListingService.java:229-232 | a string with nothing to strip at either end is its own trim |
| JavaStrings.AsciiBlankTrimsToEmpty | src/main/java/panda/listing/ListingService.java:87-90 | on ASCII input, a blank string trims to the empty string |
| JavaStrings.BlankAndTrimDisagree | src/main/java/panda/listing/ListingService.java:116-119 | U+0001 is not blank but trims to empty; U+2003 is blank but survives trim |
| JavaStrings.IsWhitespace | src/main/java/panda/listing/ListingService.java:116 | `Character.isWhitespace` as `isBlank` uses it: the Unicode space, line and paragraph separators except the no-break ones, plus U+0009..U+000D and U+001C..U+001F (a definition; `BlankAndTrimDisagree` is its partner against `trim`) |
| JavaStrings.IsBlank | src/main/java/panda/listing/ListingService.java:116 | `String.isBlank`: empty or whitespace only (a definition; `AsciiBlankTrimsToEmpty` and `BlankAndTrimDisagree` relate it to `trim`) |
| JavaStrings.LastIndexOf | src/main/java/panda/image/ImageStorageService.java:90 | -1 exactly when the character is absent; otherwise an index holding it with no later occurrence |
| JavaStrings.NatToString | src/main/java/panda/listing/ListingService.java:182 | a non-empty string of decimal digits, with no leading zero unless the number is 0 |
| JavaStrings.LongToString | src/main/java/panda/listing/ListingService.java:182 | `Long.toString`, as `"…: " + id` prints it: never empty, starts with `-` exactly for a negative number, followed by the digits of its absolute value |
| JavaStrings.ParseNatToString | src/main/java/panda/listing/ListingService.java:182 | reading the printed digits back gives the number |
| JavaStrings.ParseLongToString | src/main/java/panda/listing/ListingService.java:182 | `Long.toString` prints an optional sign and digits, and parsing them gives the number back |
| UnixPaths.Elements | src/main/java/panda/image/ImageStorageService.java:53 | every element parsed from a path string is non-empty and slash-free |
| UnixPaths.Resolve | src/main/java/panda/image/ImageStorageService.java:53 | resolving keeps a parsed path parsed |
| UnixPaths.NormalizeFrom | src/main/java/panda/image/ImageStorageService.java:53 | the result is normal; an already normal tail is appended unchanged; with no `..` the prefix is kept |
| UnixPaths.StartsWith | src/main/java/panda/image/ImageStorageService.java:54 | `Path.startsWith(Path)`, compared whole element by whole element; a path starts with itself and with the root (`SiblingStartsWith` and `LoadRejectsLookalikeSibling` show that a lookalike name does not count) |
| UnixPaths.Normalize | src/main/java/panda/image/ImageStorageService.java:26 | the result is normal, and a normal path is its own normal form |
| UnixPaths.NormalizeIdempotent | src/main/java/panda/image/ImageStorageService.java:53 | normalizing twice is normalizing once |
| UnixPaths.NormalizeFromAppend | src/main/java/panda/image/ImageStorageService.java:53 | normalizing a concatenation equals normalizing the second part onto the normalized first part |
| UnixPaths.ResolveTwoNames | src/main/java/panda/image/ImageStorageService.java:26 | `x/y` against a normal base yields base + [x, y], which is already normal |
| UnixPaths.RelativeNameStaysInside | src/main/java/panda/image/ImageStorageService.java:53-54 | a relative name without `..` normalizes to a path inside the base |
| UnixPaths.SiblingStartsWith | src/main/java/panda/image/ImageStorageService.java:54 | a path below the parent starts with the directory exactly when its next element is the directory's own name |
| UnixPaths.ParentThenName | src/main/java/panda/image/ImageStorageService.java:53-54 | `../x` normalizes to the sibling x, which starts with the directory iff x is its own name |
| UnixPaths.ParentThenTwoNames | src/main/java/panda/image/ImageStorageService.java:53-54 | `../x/y` normalizes to y in sibling x, which starts with the directory iff x is its own name |
| ImageStorage.Open | src/main/java/panda/image/ImageStorageService.java:25-32 | fails with "Failed to create image upload directory" exactly when a file sits on the upload directory's chain; otherwise the store is valid: its directory is normal and no file sits at it or above it |
| ImageStorage.DefaultUploadDirectory | src/main/java/panda/image/ImageStorageService.java:25-32 | the default setting puts uploads in `<working dir>/uploads/listings`, and opening fails exactly when a file sits on that chain |
| ImageStorage.ExtractExtension | src/main/java/panda/image/ImageStorageService.java:85-96 | the result is empty or matches `\.[A-Za-z0-9]{1,10}`; a non-empty one is a suffix of the name with no further dot |
| ImageStorage.ExtensionIsSafe | src/main/java/panda/image/ImageStorageService.java:94-95 | a kept extension has at most 11 characters and no `/`, `\` or `..` |
| ImageStorage.ExtensionOfStemAndExtension | src/main/java/panda/image/ImageStorageService.java:90-95 | any stem followed by a valid extension keeps exactly that extension |
| ImageStorage.NoExtension | src/main/java/panda/image/ImageStorageService.java:86-92 | a null or blank name, a name with no dot, or a name ending in a dot gives "" |
| ImageStorage.SavedFileNameIsName | src/main/java/panda/image/ImageStorageService.java:69-73 | a saved name is one plain relative element, so the destination check passes |
| ImageStorage.SavedFileNamesDistinct | src/main/java/panda/image/ImageStorageService.java:70 | distinct tokens give distinct saved names |
| ImageStorage.Save | src/main/java/panda/image/ImageStorageService.java:68-83 | always succeeds; the name is token + extension; only the file below the upload directory under that name changes |
| ImageStorage.NonEmptyFiles | src/main/java/panda/image/ImageStorageService.java:40-43 | an upload is kept exactly when it is present and non-empty; nothing else is kept |
| ImageStorage.NonEmptyFilesAppend | src/main/java/panda/image/ImageStorageService.java:40-43 | filtering goes upload by upload, so the kept uploads keep their input order |
| ImageStorage.NonEmptyFilesSingle | src/main/java/panda/image/ImageStorageService.java:41-43 | a `null` or empty upload is skipped; any other upload is kept as it is |
| ImageStorage.StoreFrom | src/main/java/panda/image/ImageStorageService.java:39-48 | one API path per non-empty upload, in order, the i-th being the prefix + the i-th saved name |
| ImageStorage.Store | src/main/java/panda/image/ImageStorageService.java:34-49 | a null list stores nothing; otherwise one prefixed path per non-empty upload, in input order; the store stays valid |
| ImageStorage.Load | src/main/java/panda/image/ImageStorageService.java:51-66 | success only returns a file inside the upload directory; errors are "Invalid image path" or "Image not found" |
| ImageStorage.LoadRejectsEscape | src/main/java/panda/image/ImageStorageService.java:53-56 | every name whose resolved, normalized path leaves the upload directory is "Invalid image path", whether or not the file exists |
| ImageStorage.LoadDirectoryItself | src/main/java/panda/image/ImageStorageService.java:53-61 | in a valid store, a name that normalizes to the upload directory names a directory, not a readable file: "Image not found" |
| ImageStorage.LoadEmptyOrDot | src/main/java/panda/image/ImageStorageService.java:53-61 | in a valid store, `""` and `"."` are "Image not found" |
| ImageStorage.LoadContainedName | src/main/java/panda/image/ImageStorageService.java:53-62 | every name that stays inside the upload directory loads the file at its normalized path, or is "Image not found" when there is none |
| ImageStorage.LoadPlainName | src/main/java/panda/image/ImageStorageService.java:53-61 | a plain name is never invalid; it is found exactly when its file exists, else "Image not found" |
| ImageStorage.LoadRejectsParentEscape | src/test/java/panda/image/ImageStorageServiceTest.java:48-55 | `../x` is an invalid path unless x is the upload directory's own name |
| ImageStorage.LoadRejectsAbsoluteOutside | src/main/java/panda/image/ImageStorageService.java:53-55 | an absolute name outside the directory is an invalid path |
| ImageStorage.LoadRejectsSiblingDirectory | src/main/java/panda/image/ImageStorageService.java:53-55 | `../x/y` into a sibling directory is an invalid path |
| ImageStorage.LoadRejectsLookalikeSibling | src/main/java/panda/image/ImageStorageService.java:54 | `../uploads-evil/x.jpg` is refused although its text begins with the directory's text |
| ImageStorage.SavedNameAt | src/main/java/panda/image/ImageStorageService.java:40-46 | the i-th saved upload is named with token i |
| ImageStorage.SavedNamesDistinct | src/main/java/panda/image/ImageStorageService.java:70 | with distinct tokens no two uploads of one call share a name |
| ImageStorage.StoreFromCons | src/main/java/panda/image/ImageStorageService.java:40-47 | the first non-empty upload is saved first, and the rest are stored on the result |
| ImageStorage.StoreFromFrame | src/main/java/panda/image/ImageStorageService.java:77-78 | storing leaves every other path untouched |
| ImageStorage.StoreFromWrites | src/main/java/panda/image/ImageStorageService.java:77-78 | with distinct names every saved upload's bytes are at its name afterwards |
| ImageStorage.LoadSavedName | src/main/java/panda/image/ImageStorageService.java:53-62 | a saved name loads the bytes stored under it |
| ImageStorage.StoreThenLoad | src/test/java/panda/image/ImageStorageServiceTest.java:21-36 | each returned path is the prefix + a name that loads exactly the uploaded bytes |
| ImageStorage.StoreSkipsAbsentAndEmpty | src/test/java/panda/image/ImageStorageServiceTest.java:38-46 | only null and empty uploads: no path returned, no file written |
| ImageStorage.NoWriteWithoutContent | src/main/java/panda/image/ImageStorageService.java:41-43 | skipped uploads write nothing |
| Listings.PathsOf | src/main/java/panda/listing/ListingService.java:234-235 | the image paths, position by position |
| Listings.AddImagePath | src/main/java/panda/listing/Listing.java:90-98 | a null list becomes empty first; one new image with the path goes at the end; earlier images and all columns are unchanged |
| Listings.AddImagePaths | src/main/java/panda/listing/ListingService.java:153 | id and details never change; adding any path makes the list present |
| Listings.NewImages | src/main/java/panda/listing/ListingService.java:153 | one fresh image per path, in order |
| Listings.AddImagePathsAppends | src/main/java/panda/listing/ListingService.java:152-153 | adding paths one by one appends one new image per path, in order, after the existing ones |
| Listings.AddImagePathsPaths | src/main/java/panda/listing/ListingService.java:152-153 | the paths afterwards are the old paths followed by the added ones |
| Listings.UpdateDetails | src/main/java/panda/listing/Listing.java:100-130 | every column takes its argument, except that a null loan-product list becomes empty; id and images are unchanged |
| Listings.UpdateSold | src/main/java/panda/listing/Listing.java:132-134 | only `sold` changes |
| Listings.UpdateDetailsOverwrites | src/main/java/panda/listing/Listing.java:116-129 | the old columns do not matter, and a second identical update changes nothing |
| Listings.UpdateSoldIsUpdateDetails | src/main/java/panda/listing/Listing.java:132-134 | `updateSold` agrees with `updateDetails` given the listing's own columns and the new flag |
| ImageSync.NormalizeRequestedPaths | src/main/java/panda/listing/ListingService.java:229-232 | every non-null, non-blank entry appears trimmed, and nothing else does |
| ImageSync.NormalizeAppend | src/main/java/panda/listing/ListingService.java:229-232 | normalization works entry by entry, preserving order |
| ImageSync.NormalizeNothingRetained | src/main/java/panda/listing/ListingService.java:229-232 | a list of only null and blank entries normalizes to empty |
| ImageSync.NormalizeClean | src/main/java/panda/listing/ListingService.java:229-232 | paths with nothing to trim come through unchanged |
| ImageSync.Retain | src/main/java/panda/listing/ListingService.java:249 | each image is kept as often as before if its path is retained, otherwise dropped |
| ImageSync.RetainWithPath | src/main/java/panda/listing/ListingService.java:249 | the images of a retained path keep their relative order |
| ImageSync.RetainDropsPath | src/main/java/panda/listing/ListingService.java:249 | no image of an unretained path survives |
| ImageSync.PathsToDelete | src/main/java/panda/listing/ListingService.java:234-246 | no duplicates; a path is listed iff some image has it and it is not retained |
| ImageSync.OrderTable | src/main/java/panda/listing/ListingService.java:251-254 | the keys are exactly the requested paths, each mapped to its first index |
| ImageSync.FirstIndex | src/main/java/panda/listing/ListingService.java:252-253 | the index of the first occurrence |
| ImageSync.OrderTableFirstIndex | src/main/java/panda/listing/ListingService.java:251-254 | `putIfAbsent` keeps the first index of each path |
| ImageSync.Insert | src/main/java/panda/listing/ListingService.java:255-259 | insertion adds exactly the one image |
| ImageSync.InsertSorted | src/main/java/panda/listing/ListingService.java:255-259 | inserting into a rank-sorted list keeps it sorted |
| ImageSync.SortByRank | src/main/java/panda/listing/ListingService.java:255-259 | the result is a permutation, sorted by rank (first index, or `Integer.MAX_VALUE`) |
| ImageSync.InsertWithPath | src/main/java/panda/listing/ListingService.java:255-259 | insertion puts the image ahead of equal-path images already there |
| ImageSync.SortKeepsPathOrder | src/main/java/panda/listing/ListingService.java:255-259 | the sort is stable on images sharing a path |
| ImageSync.SyncExistingImages | src/main/java/panda/listing/ListingService.java:223-260 | null retain list: no change, no event; null images: NPE; fails iff a retained path is unknown; otherwise at most one delete, of exactly the unretained paths, once each, and none when nothing is dropped |
| ImageSync.SyncDeletesOnlyExisting | src/main/java/panda/listing/ListingService.java:242-247 | at most one delete, naming only paths the images had |
| ImageSync.SyncKeepsRetainedImages | src/main/java/panda/listing/ListingService.java:249 | afterwards the images are exactly the old ones with retained paths, none added or duplicated |
| ImageSync.SyncOrdersByFirstOccurrence | src/main/java/panda/listing/ListingService.java:251-259 | every kept image's path was requested, and kept images are in order of their path's first request index |
| ImageSync.SyncKeepsPathOrder | src/main/java/panda/listing/ListingService.java:249-259 | images sharing a path keep their order if retained, and vanish otherwise |
| ImageSync.SyncNothingRetained | src/main/java/panda/listing/ListingService.java:229-249 | an empty or all-blank retain list removes every image and deletes every path |
| ImageSync.SyncRefusesUnknown | src/main/java/panda/listing/ListingService.java:238-240 | any unknown retained path gives BAD_REQUEST "Unknown retained image path included" |
| ImageSync.SyncReordersAndDeletes | src/main/java/panda/listing/ListingService.java:242-259 | retaining [c, a] of [a, b, c] deletes b and yields [c, a] |
| ImageSync.SyncRetainsOne | src/test/java/panda/listing/ListingServiceTest.java:247-277 | retaining the second of two images deletes the first and keeps only the second |
| ImageSync.SyncRetainsFirst | src/test/java/panda/listing/ListingServiceTest.java:279-310 | retaining the first of two images keeps only the first and issues one delete naming the second |
| ImageSync.SyncRefusesUnknownPath | src/test/java/panda/listing/ListingServiceTest.java:312-342 | an unknown retained path is refused with BAD_REQUEST |
| ListingService.ParseMoveInDate | src/main/java/panda/listing/ListingService.java:173-178 | null or blank text is no date; otherwise the trimmed text is parsed, and a parse failure is an error naming it |
| ListingService.ParseMoveInDateSameTrim | src/main/java/panda/listing/ListingService.java:173-178 | two texts that agree on blankness and on their trimmed form parse to the same result |
| ListingService.ParseMoveInDateTrimmed | src/main/java/panda/listing/ListingService.java:173-178 | parsing sees only the trimmed text: trimming first changes nothing unless trimming changes whether the text is blank |
| ListingService.Locate | src/main/java/panda/listing/ListingService.java:111-131 | a blank address fails with BAD_REQUEST; the stored address is the trimmed one, geocoded only when it differs from the stored address; an absent date is kept; succeeds exactly when the address is not blank, the geocoder succeeds if it is called, and a present date parses; a later failure is the geocoder's if it failed, otherwise the date's |
| ListingService.MergeDetails | src/main/java/panda/listing/ListingService.java:115-148 | fails exactly when `Locate` fails; each non-null request field replaces its column, each null one keeps it |
| ListingService.MergeEmptyRequest | src/main/java/panda/listing/ListingService.java:132-148 | an all-null request changes no column |
| ListingService.MergeIdempotent | src/main/java/panda/listing/ListingService.java:115-148 | merging the same request into the merged details changes nothing, and cannot fail: the stored address then equals the trimmed request address, so the geocoder is not called |
| ListingService.Patch | src/main/java/panda/listing/ListingService.java:107-154 | fails iff the merge or the reconciliation fails; the failure is the merge's when the merge fails, otherwise the reconciliation's, as the exceptions are raised in that order; on success the columns are the merged ones and the store stays valid |
| ListingService.PatchAppendsUploads | src/main/java/panda/listing/ListingService.java:150-153 | the result is the reconciled images followed by one new image per stored upload, in order; the returned store is the one `store` wrote the uploads to; the deletes are the reconciliation's |
| ListingService.PatchUploadsLoad | src/main/java/panda/listing/ListingService.java:150-153 | the listing's image paths end with one path per non-empty upload, in upload order, and each, less `/api/images/`, loads that upload's bytes from the returned store |
| ListingService.AppendedPathsLast | src/main/java/panda/listing/ListingService.java:153 | after adding the paths one by one, the listing's paths end with exactly those paths, in order |
| ListingService.PatchWithoutRetainList | src/main/java/panda/listing/ListingService.java:150-153 | with a null retain list the old paths stay, no delete is issued, and uploads follow the old images |
| ListingService.PatchDeletesOnlyOldPaths | src/main/java/panda/listing/ListingService.java:151-152 | deletes name only paths the listing had before the call, never an upload of the same call |
| ListingService.PatchSoldOnlyKeepsLocation | src/test/java/panda/listing/ListingServiceTest.java:160-188 | setting only `sold` keeps the address and coordinates |
| ListingService.PatchAddressCoordinates | src/test/java/panda/listing/ListingServiceTest.java:190-245 | a new address is stored trimmed and geocoded, and the patch fails exactly when the geocoder does, with its failure; the same address keeps the coordinates and never fails |
| ListingService.PatchRejectsBlankAddress | src/main/java/panda/listing/ListingService.java:115-118 | a blank address fails with BAD_REQUEST "Address must not be blank" |
| ListingService.ControlCharTrimsAway | src/main/java/panda/listing/ListingService.java:116-119 | a single control character that is not whitespace, such as U+0001, is not blank yet trims to `""` |
| ListingService.PatchStoresEmptyAddress | src/main/java/panda/listing/ListingService.java:116-125 | an address that is one such character passes the blank check; the patch succeeds exactly when `""` is already the stored address or the geocoder accepts `""`, and then stores `""` |
| ListingService.PatchControlCharAddressRejectedByGeocoder | src/main/java/panda/listing/NcpGeocodingService.java:33-35 | with a geocoder that refuses a blank query, an address that is one such character (U+0001, say) fails with the geocoder's IllegalArgumentException, not the service's BAD_REQUEST |
| ListingService.PatchBlankMoveInDateClears | src/main/java/panda/listing/ListingService.java:128-131 | a present but blank move-in date clears the stored date |
| ListingService.FindById | src/main/java/panda/listing/ListingService.java:180-183 | found iff the id is present; otherwise NOT_FOUND "Listing not found: " + id |
| ListingService.NotFoundNamesId | src/main/java/panda/listing/ListingService.java:182 | two missing ids give different failures |
| ListingService.PatchById | src/main/java/panda/listing/ListingService.java:107-110 | unknown id: NOT_FOUND; otherwise the outcome of `Patch` on the found listing: its failure unchanged, or its listing, store and deletes, with only that listing replaced |
| ListingService.PatchByIdThenFind | src/main/java/panda/listing/ListingService.java:107-110 | after a patch by id the listing found under that id is the patched one, and the set of listings is unchanged |
| ListingService.DeleteById | src/main/java/panda/listing/ListingService.java:156-165 | unknown id: NOT_FOUND; a null image list: NullPointer; otherwise exactly one storage delete whose paths are the image paths in image order, and only that listing is removed |
| ListingService.DeleteThenFind | src/main/java/panda/listing/ListingService.java:156-165 | after a delete the listing is not found, and deleting it again fails |
| ListingService.PatchSold | src/main/java/panda/listing/ListingService.java:167-171 | unknown id: NOT_FOUND; otherwise only that listing's `sold` changes |
| ListingService.PatchSoldIsPatch | src/main/java/panda/listing/ListingService.java:167-171 | `patchSold` leaves the same listings as a `patch` that only sets `sold`, when a loan-product list is present |
| ListingService.SearchKeyword | src/main/java/panda/listing/ListingService.java:86-90 | fails iff the keyword is null or blank, with BAD_REQUEST; otherwise the trimmed keyword |
| ListingService.SearchKeywordPlain | src/main/java/panda/listing/ListingService.java:86-90 | on ASCII text without non-whitespace controls, refusal is exactly "nothing left after trimming" |
| ListingService.SearchKeywordControlChar | src/main/java/panda/listing/ListingService.java:87-90 | the keyword U+0001 passes and searches for "" |

## Left out

- `create`, `getById`, `getSummaries` and `getUnsoldListings` are left out. `create` geocodes the address and saves a new listing with its uploads; the others are repository queries, DTO mapping and timestamp ordering.
- The MoveInType rules that the service tests expect are left out (`ListingServiceTest.java:367-417`). The service code has no such check, and `patch` never reads `moveInType` or `hotProperty`.
- Controllers, the exception handler and the S3 configuration are left out: they are HTTP and SDK wiring.
- Object-storage `delete` is only a recorded event. Its definition is not part of this model.
- Presigned URLs are left out.
- The geocoding implementations are left out. Geocoding is a parameter that returns a coordinate or a failure; the HTTP call, the key check and the hashing are not modelled.
- `LocalDate.parse` with `BASIC_ISO_DATE` is left out. It is a parameter that returns a date or nothing.
- I/O failures other than a file blocking the upload directory are not modelled. The `IllegalStateException` from a failed file copy or URL is outside the model, and `Store` always succeeds.
- `Resource.exists`/`isReadable` become map membership. Beyond the upload directory's own chain, the map does not record which paths are directories, so a file below a path that is itself a file is not ruled out.
- The JPA persistence context, `updatedAt` and ids are left out.
- Bean Validation limits (`@Size`, `@Min`) are not checked.
- `Listing.viewCount` is left out.
- ImageSync.PathsToDelete: the service deletes in `HashMap` key-set order, which Java leaves unspecified. The model lists the paths in first-occurrence order, and its contract states only the set of paths and that none repeats.
- Listings.Details: `Double` coordinates are `real`, and `Long` deposit and rent are unbounded `int`; no arithmetic is done on them.
- ListingService.PatchSoldIsPatch: needs a present loan-product list. `updateDetails` turns a `null` list into an empty one, while `updateSold` leaves it alone.
- UnixPaths.Normalize: only absolute paths are normalized (the upload directory is always absolute). Names containing NUL, which `Path` rejects with `InvalidPathException`, are not modelled.
- JavaStrings.IsWhitespace: characters outside the Basic Multilingual Plane are not modelled.
