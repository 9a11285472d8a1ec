/** The listing service's partial update (`patch`): the field merge, the
    reconciliation of the kept images and the upload of new ones, in the
    order the service runs them; plus the lookup by id, `patchSold` and the
    keyword check of the address search. A failed call is rolled back by the
    surrounding transaction, so an `Error` carries no listing, storage or
    storage events. */
module ListingService {
  import opened Outcomes
  import opened JavaStrings
  import opened Listings
  import opened ImageSync
  import opened ImageStorage

  const AddressMustNotBeBlank: string := "Address must not be blank"
  const AddressKeywordMustNotBeBlank: string := "Address keyword must not be blank"
  const ListingNotFound: string := "Listing not found: "

  /** The body of a partial update. Every field may be `null`, meaning
      "leave as it is". `hotProperty` and `moveInType` are carried but
      never read by `patch`. */
  datatype UpdateListingRequest = UpdateListingRequest(
    address: Option<string>,
    note: Option<string>,
    parking: Option<AvailabilityStatus>,
    elevator: Option<ElevatorStatus>,
    pet: Option<AvailabilityStatus>,
    contractType: Option<ContractType>,
    roomType: Option<RoomType>,
    loanProducts: Option<seq<LoanProduct>>,
    moveInDate: Option<string>,
    deposit: Option<int>,
    monthlyRent: Option<int>,
    sold: Option<bool>,
    hotProperty: Option<bool>,
    imagePaths: Option<seq<Option<string>>>,
    moveInType: Option<Constant>)

  /** A request with every field `null`. */
  const EmptyRequest: UpdateListingRequest :=
    UpdateListingRequest(None, None, None, None, None, None, None, None, None, None, None, None, None, None, None)

  /** A nullable request field over a nullable column: the request's value
      when it is present, otherwise the column's. */
  function OrElse<T>(requested: Option<T>, current: Option<T>): Option<T> {
    if requested.Some? then requested else current
  }

  /** `parseMoveInDate`: `null` or blank text is no date; otherwise the
      trimmed text is parsed as `yyyyMMdd`. The parser is a parameter; a
      `None` from it stands for `DateTimeParseException`. */
  function ParseMoveInDate(text: Option<string>, parse: string -> Option<LocalDate>): (r: Result<Option<LocalDate>>)
    ensures text.None? || IsBlank(text.value) ==> r == Success(None)
    ensures text.Some? && !IsBlank(text.value) ==>
              match parse(Trim(text.value))
              case Some(d) => r == Success(Some(d))
              case None => r == Error(DateTimeParse(Trim(text.value)))
  {
    if text.None? || IsBlank(text.value) then Success(None)
    else
      var trimmed := Trim(text.value);
      match parse(trimmed)
      case Some(d) => Success(Some(d))
      case None => Error(DateTimeParse(trimmed))
  }

  /** Parsing looks only at the trimmed text: trimming first changes
      nothing, as long as trimming does not change whether the text is
      blank (it does for a lone U+0001, which is not blank but trims to
      the blank empty string). */
  lemma ParseMoveInDateTrimmed(text: string, parse: string -> Option<LocalDate>)
    requires IsBlank(text) <==> IsBlank(Trim(text))
    ensures ParseMoveInDate(Some(Trim(text)), parse) == ParseMoveInDate(Some(text), parse)
  {
    TrimIdempotent(text);
    ParseMoveInDateSameTrim(Trim(text), text, parse);
  }

  /** Two texts that agree on blankness and on their trimmed form parse
      alike. */
  lemma ParseMoveInDateSameTrim(a: string, b: string, parse: string -> Option<LocalDate>)
    requires IsBlank(a) <==> IsBlank(b)
    requires Trim(a) == Trim(b)
    ensures ParseMoveInDate(Some(a), parse) == ParseMoveInDate(Some(b), parse)
  {
  }

  /** The address, coordinates and move-in date `patch` computes before it
      writes the details. */
  datatype Located = Located(address: string, coordinate: Coordinate, moveInDate: Option<LocalDate>)

  /** The request's address is present but blank. */
  predicate AddressBlank(req: UpdateListingRequest) {
    req.address.Some? && IsBlank(req.address.value)
  }

  /** The request's address is present, not blank, and its trimmed text
      differs from the stored address: the only case that geocodes. */
  predicate NeedsGeocode(l: Listing, req: UpdateListingRequest) {
    req.address.Some? && !IsBlank(req.address.value) && Trim(req.address.value) != l.details.address
  }

  /** The first half of `patch`: a blank address is refused; a present
      address is stored trimmed, and geocoded again only when the trimmed
      text differs from the stored address; a present move-in date is parsed
      (blank clears it), an absent one is kept. The geocoder is a parameter
      that may fail; its failure ends the call before the date is read. */
  function Locate(l: Listing, req: UpdateListingRequest, geocode: string -> Result<Coordinate>,
                  parse: string -> Option<LocalDate>): (r: Result<Located>)
    ensures AddressBlank(req) ==> r == Error(ResponseStatus(BadRequest, AddressMustNotBeBlank))
    ensures r.Success? <==>
              && !AddressBlank(req)
              && (NeedsGeocode(l, req) ==> geocode(Trim(req.address.value)).Success?)
              && (req.moveInDate.Some? ==> ParseMoveInDate(req.moveInDate, parse).Success?)
    ensures r.Error? && !AddressBlank(req) ==>
              r.failure == if NeedsGeocode(l, req) && geocode(Trim(req.address.value)).Error?
                           then geocode(Trim(req.address.value)).failure
                           else ParseMoveInDate(req.moveInDate, parse).failure
    ensures r.Success? && req.address.None? ==>
              r.value.address == l.details.address
              && r.value.coordinate == Coordinate(l.details.latitude, l.details.longitude)
    ensures r.Success? && req.address.Some? ==>
              r.value.address == Trim(req.address.value)
              && r.value.coordinate == if NeedsGeocode(l, req) then geocode(Trim(req.address.value)).value
                                       else Coordinate(l.details.latitude, l.details.longitude)
    ensures r.Success? && req.moveInDate.None? ==> r.value.moveInDate == l.details.moveInDate
    ensures r.Success? && req.moveInDate.Some? ==> ParseMoveInDate(req.moveInDate, parse) == Success(r.value.moveInDate)
  {
    if req.address.Some? && IsBlank(req.address.value) then
      Error(ResponseStatus(BadRequest, AddressMustNotBeBlank))
    else
      var address := if req.address.Some? then Trim(req.address.value) else l.details.address;
      var coordinate :-
        if req.address.Some? && address != l.details.address then geocode(address)
        else Success(Coordinate(l.details.latitude, l.details.longitude));
      if req.moveInDate.None? then Success(Located(address, coordinate, l.details.moveInDate))
      else
        var date :- ParseMoveInDate(req.moveInDate, parse);
        Success(Located(address, coordinate, date))
  }

  /** `d` holds what the request asked for: each present request field
      replaces the listing's column, each `null` one keeps it. */
  predicate RequestedFields(before: Details, req: UpdateListingRequest, d: Details) {
    && d.note == OrElse(req.note, before.note)
    && d.parking == req.parking.GetOr(before.parking)
    && d.elevator == req.elevator.GetOr(before.elevator)
    && d.pet == req.pet.GetOr(before.pet)
    && d.contractType == req.contractType.GetOr(before.contractType)
    && d.roomType == req.roomType.GetOr(before.roomType)
    && d.loanProducts == OrElse(req.loanProducts, before.loanProducts)
    && d.deposit == req.deposit.GetOr(before.deposit)
    && d.monthlyRent == req.monthlyRent.GetOr(before.monthlyRent)
    && d.sold == req.sold.GetOr(before.sold)
  }

  /** The detail arguments `patch` hands to `updateDetails`. */
  function MergeDetails(l: Listing, req: UpdateListingRequest, geocode: string -> Result<Coordinate>,
                        parse: string -> Option<LocalDate>): (r: Result<Details>)
    ensures r.Success? <==> Locate(l, req, geocode, parse).Success?
    ensures r.Error? ==> r.failure == Locate(l, req, geocode, parse).failure
    ensures r.Success? ==>
              var at := Locate(l, req, geocode, parse).value;
              && r.value.address == at.address
              && r.value.latitude == at.coordinate.latitude
              && r.value.longitude == at.coordinate.longitude
              && r.value.moveInDate == at.moveInDate
              && RequestedFields(l.details, req, r.value)
  {
    match Locate(l, req, geocode, parse)
    case Error(f) => Error(f)
    case Success(at) =>
      var before := l.details;
      Success(Details(
        at.address,
        OrElse(req.note, before.note),
        req.parking.GetOr(before.parking),
        req.elevator.GetOr(before.elevator),
        req.pet.GetOr(before.pet),
        req.contractType.GetOr(before.contractType),
        req.roomType.GetOr(before.roomType),
        OrElse(req.loanProducts, before.loanProducts),
        at.moveInDate,
        req.deposit.GetOr(before.deposit),
        req.monthlyRent.GetOr(before.monthlyRent),
        req.sold.GetOr(before.sold),
        at.coordinate.latitude,
        at.coordinate.longitude))
  }

  /** An all-`null` request changes no column. */
  lemma MergeEmptyRequest(l: Listing, geocode: string -> Result<Coordinate>, parse: string -> Option<LocalDate>)
    ensures MergeDetails(l, EmptyRequest, geocode, parse) == Success(l.details)
  {
  }

  /** Merging is idempotent: merging the same request into the merged
      details changes nothing more. The second time the stored address
      already equals the trimmed one, so nothing is geocoded again. */
  lemma MergeIdempotent(l: Listing, req: UpdateListingRequest, geocode: string -> Result<Coordinate>,
                        parse: string -> Option<LocalDate>)
    requires MergeDetails(l, req, geocode, parse).Success?
    ensures var d := MergeDetails(l, req, geocode, parse).value;
            MergeDetails(l.(details := d), req, geocode, parse) == Success(d)
  {
    var d := MergeDetails(l, req, geocode, parse).value;
    var l2 := l.(details := d);
    var d2 := MergeDetails(l2, req, geocode, parse);
    if req.moveInDate.Some? {
      assert ParseMoveInDate(req.moveInDate, parse) == Success(d.moveInDate);
    }
    assert d2.Success?;
  }

  /** What `patch` leaves behind: the listing, the local image store, and
      the storage deletes it issued. */
  datatype Patched = Patched(listing: Listing, storage: Storage, events: seq<StorageEvent>)

  /** `patch(id, request, images)` on a listing already found: merge the
      details and write them, reconcile the kept images, then store the
      uploads (`null` counts as none) and append their paths. The upload
      token source `uuid` stands for `UUID.randomUUID()`. */
  function Patch(l: Listing, req: UpdateListingRequest, images: Option<seq<Option<UploadFile>>>,
                 st: Storage, uuid: nat -> Uuid, geocode: string -> Result<Coordinate>,
                 parse: string -> Option<LocalDate>): (r: Result<Patched>)
    requires Valid(st)
    ensures r.Error? <==>
              MergeDetails(l, req, geocode, parse).Error?
              || SyncExistingImages(UpdateDetails(l, MergeDetails(l, req, geocode, parse).value), req.imagePaths).Error?
    ensures r.Error? ==>
              || r.failure == ResponseStatus(BadRequest, AddressMustNotBeBlank)
              || r.failure.DateTimeParse?
              || r.failure == NullPointer
              || r.failure == ResponseStatus(BadRequest, UnknownRetainedPath)
              || (NeedsGeocode(l, req) && geocode(Trim(req.address.value)).Error?
                  && r.failure == geocode(Trim(req.address.value)).failure)
    ensures r.Error? ==>
              var merged := MergeDetails(l, req, geocode, parse);
              r.failure == if merged.Error? then merged.failure
                           else SyncExistingImages(UpdateDetails(l, merged.value), req.imagePaths).failure
    ensures r.Success? ==>
              && r.value.listing.id == l.id
              && r.value.listing.details == UpdateDetails(l, MergeDetails(l, req, geocode, parse).value).details
              && Valid(r.value.storage)
              && r.value.storage.uploadDirectory == st.uploadDirectory
  {
    var d :- MergeDetails(l, req, geocode, parse);
    var synced :- SyncExistingImages(UpdateDetails(l, d), req.imagePaths);
    var uploads := if images.None? then [] else images.value;
    var stored := Store(st, Some(uploads), uuid).value;
    Success(Patched(AddImagePaths(synced.listing, stored.imagePaths), stored.storage, synced.events))
  }

  /** The images after a successful `patch`: the reconciled images, then
      one new image per stored upload in upload order; the storage deletes
      are those of the reconciliation, issued before any upload. */
  lemma PatchAppendsUploads(l: Listing, req: UpdateListingRequest, images: Option<seq<Option<UploadFile>>>,
                            st: Storage, uuid: nat -> Uuid, geocode: string -> Result<Coordinate>,
                            parse: string -> Option<LocalDate>)
    requires Valid(st)
    requires Patch(l, req, images, st, uuid, geocode, parse).Success?
    ensures var p := Patch(l, req, images, st, uuid, geocode, parse).value;
            var synced := SyncExistingImages(UpdateDetails(l, MergeDetails(l, req, geocode, parse).value), req.imagePaths).value;
            var stored := Store(st, Some(images.GetOr([])), uuid).value;
            && |stored.imagePaths| == |NonEmptyFiles(images.GetOr([]))|
            && p.events == synced.events
            && p.storage == stored.storage
            && p.listing == AddImagePaths(synced.listing, stored.imagePaths)
            && (stored.imagePaths != [] ==>
                  p.listing.images == Some(synced.listing.images.GetOr([]) + NewImages(stored.imagePaths)))
            && (stored.imagePaths == [] ==> p.listing == synced.listing)
  {
    var synced := SyncExistingImages(UpdateDetails(l, MergeDetails(l, req, geocode, parse).value), req.imagePaths).value;
    var stored := Store(st, Some(images.GetOr([])), uuid).value;
    AddImagePathsAppends(synced.listing, stored.imagePaths);
  }

  /** The uploads `saved` are readable from a patch result: the listing's
      image paths end with one path per upload, in upload order, and each,
      with the API prefix taken off, loads that upload's bytes from the
      returned store. */
  predicate UploadsReadable(p: Patched, saved: seq<UploadFile>) {
    saved != [] ==>
      && p.listing.images.Some?
      && |p.listing.images.value| >= |saved|
      && var tail := PathsOf(p.listing.images.value)[|p.listing.images.value| - |saved|..];
         forall i :: 0 <= i < |saved| ==>
           ImageApiPrefix <= tail[i] && Load(p.storage, tail[i][|ImageApiPrefix|..]) == Success(saved[i].content)
  }

  /** Every upload a successful `patch` appends is on disk and readable
      through the path stored for it. */
  lemma PatchUploadsLoad(l: Listing, req: UpdateListingRequest, images: Option<seq<Option<UploadFile>>>,
                         st: Storage, uuid: nat -> Uuid, geocode: string -> Result<Coordinate>,
                         parse: string -> Option<LocalDate>)
    requires Valid(st)
    requires DistinctDraws(uuid, 0, |NonEmptyFiles(images.GetOr([]))|)
    requires Patch(l, req, images, st, uuid, geocode, parse).Success?
    ensures UploadsReadable(Patch(l, req, images, st, uuid, geocode, parse).value, NonEmptyFiles(images.GetOr([])))
  {
    var synced := SyncExistingImages(UpdateDetails(l, MergeDetails(l, req, geocode, parse).value), req.imagePaths).value;
    PatchAppendsUploads(l, req, images, st, uuid, geocode, parse);
    UploadsLoadAfterPatch(Patch(l, req, images, st, uuid, geocode, parse).value, synced.listing,
                          st, images.GetOr([]), uuid);
  }

  /** The last step of `PatchUploadsLoad`, apart from `patch` itself: a
      listing that received the stored paths, next to the store that
      received their files. */
  lemma UploadsLoadAfterPatch(p: Patched, l: Listing, st: Storage, files: seq<Option<UploadFile>>, uuid: nat -> Uuid)
    requires Valid(st)
    requires DistinctDraws(uuid, 0, |NonEmptyFiles(files)|)
    requires p.listing == AddImagePaths(l, Store(st, Some(files), uuid).value.imagePaths)
    requires p.storage == Store(st, Some(files), uuid).value.storage
    requires |Store(st, Some(files), uuid).value.imagePaths| == |NonEmptyFiles(files)|
    ensures UploadsReadable(p, NonEmptyFiles(files))
  {
    if NonEmptyFiles(files) != [] {
      StoreThenLoad(st, files, uuid);
      AppendedPathsLast(l, Store(st, Some(files), uuid).value.imagePaths);
    }
  }

  /** After `addImagePath` for each of `paths`, the listing's paths end with
      `paths`, in order. */
  lemma AppendedPathsLast(l: Listing, paths: seq<string>)
    requires paths != []
    ensures AddImagePaths(l, paths).images.Some?
    ensures var all := AddImagePaths(l, paths).images.value;
            |all| >= |paths| && PathsOf(all)[|all| - |paths|..] == paths
  {
    AddImagePathsPaths(l, paths);
    var before := PathsOf(l.images.GetOr([]));
    var all := AddImagePaths(l, paths).images.value;
    assert PathsOf(all) == before + paths;
    assert |all| - |paths| == |before|;
    assert PathsOf(all)[|before|..] == paths;
  }

  /** Without a retain list the kept images are the old ones, untouched,
      no delete is issued, and the uploads follow them. */
  lemma PatchWithoutRetainList(l: Listing, req: UpdateListingRequest, images: Option<seq<Option<UploadFile>>>,
                               st: Storage, uuid: nat -> Uuid, geocode: string -> Result<Coordinate>,
                               parse: string -> Option<LocalDate>)
    requires Valid(st)
    requires req.imagePaths.None?
    requires Patch(l, req, images, st, uuid, geocode, parse).Success?
    ensures var p := Patch(l, req, images, st, uuid, geocode, parse).value;
            var stored := Store(st, Some(images.GetOr([])), uuid).value;
            && p.events == []
            && (l.images.Some? || stored.imagePaths != [] ==>
                  p.listing.images.Some?
                  && PathsOf(p.listing.images.value) == PathsOf(l.images.GetOr([])) + stored.imagePaths)
            && (l.images.None? && stored.imagePaths == [] ==> p.listing.images.None?)
  {
    var l1 := UpdateDetails(l, MergeDetails(l, req, geocode, parse).value);
    var stored := Store(st, Some(images.GetOr([])), uuid).value;
    PatchAppendsUploads(l, req, images, st, uuid, geocode, parse);
    if l.images.Some? || stored.imagePaths != [] {
      AddImagePathsPaths(l1, stored.imagePaths);
    }
  }

  /** With a retain list every deleted path was an image path of the
      listing before the call, so an upload of the same call is never
      deleted. */
  lemma PatchDeletesOnlyOldPaths(l: Listing, req: UpdateListingRequest, images: Option<seq<Option<UploadFile>>>,
                                 st: Storage, uuid: nat -> Uuid, geocode: string -> Result<Coordinate>,
                                 parse: string -> Option<LocalDate>)
    requires Valid(st)
    requires Patch(l, req, images, st, uuid, geocode, parse).Success?
    ensures var p := Patch(l, req, images, st, uuid, geocode, parse).value;
            |p.events| <= 1
            && forall e, q :: e in p.events && q in e.paths ==> l.images.Some? && q in PathSet(l.images.value)
  {
    var l1 := UpdateDetails(l, MergeDetails(l, req, geocode, parse).value);
    PatchAppendsUploads(l, req, images, st, uuid, geocode, parse);
    SyncDeletesOnlyExisting(l1, req.imagePaths);
  }

  /** A `patch` that only sets `sold` keeps the address and the
      coordinates and does not geocode. */
  lemma PatchSoldOnlyKeepsLocation(l: Listing, sold: bool, images: Option<seq<Option<UploadFile>>>,
                                   st: Storage, uuid: nat -> Uuid, geocode: string -> Result<Coordinate>,
                                   parse: string -> Option<LocalDate>)
    requires Valid(st)
    ensures var r := Patch(l, EmptyRequest.(sold := Some(sold)), images, st, uuid, geocode, parse);
            && r.Success?
            && r.value.listing.details.sold == sold
            && r.value.listing.details.address == l.details.address
            && r.value.listing.details.latitude == l.details.latitude
            && r.value.listing.details.longitude == l.details.longitude
  {
  }

  /** A new address is stored trimmed and geocoded, and the call fails
      exactly when the geocoder does; the same address, possibly with
      surrounding spaces, keeps the coordinates and never fails. */
  lemma PatchAddressCoordinates(l: Listing, address: string, images: Option<seq<Option<UploadFile>>>,
                                st: Storage, uuid: nat -> Uuid, geocode: string -> Result<Coordinate>,
                                parse: string -> Option<LocalDate>)
    requires Valid(st)
    requires !IsBlank(address)
    ensures var r := Patch(l, EmptyRequest.(address := Some(address)), images, st, uuid, geocode, parse);
            var g := geocode(Trim(address));
            && (r.Success? <==> Trim(address) == l.details.address || g.Success?)
            && (r.Error? ==> g.Error? && r.failure == g.failure)
            && (r.Success? ==> r.value.listing.details.address == Trim(address))
            && (r.Success? && Trim(address) != l.details.address ==>
                  r.value.listing.details.latitude == g.value.latitude
                  && r.value.listing.details.longitude == g.value.longitude)
            && (r.Success? && Trim(address) == l.details.address ==>
                  r.value.listing.details.latitude == l.details.latitude
                  && r.value.listing.details.longitude == l.details.longitude)
  {
  }

  /** `patch` with a blank address fails, whatever else the request holds. */
  lemma PatchRejectsBlankAddress(l: Listing, req: UpdateListingRequest, images: Option<seq<Option<UploadFile>>>,
                                 st: Storage, uuid: nat -> Uuid, geocode: string -> Result<Coordinate>,
                                 parse: string -> Option<LocalDate>)
    requires Valid(st)
    requires req.address.Some? && IsBlank(req.address.value)
    ensures Patch(l, req, images, st, uuid, geocode, parse) == Error(ResponseStatus(BadRequest, AddressMustNotBeBlank))
  {
  }

  /** A single control character that is not whitespace (U+0001, say)
      is not blank, yet trims to nothing. */
  lemma ControlCharTrimsAway(a: string)
    requires |a| == 1 && IsTrimmable(a[0]) && !IsWhitespace(a[0])
    ensures !IsBlank(a) && Trim(a) == []
  {
    assert TrimStart(a) == TrimStart(a[1..]);
    assert a[1..] == [];
  }

  /** `isBlank` and `trim` disagree on control characters: an address that
      is a single such character (U+0001, say) passes the blank check, so
      the empty string is geocoded (unless it is already the stored
      address) and, if the geocoder accepts it, stored. */
  lemma PatchStoresEmptyAddress(l: Listing, a: string, images: Option<seq<Option<UploadFile>>>,
                                st: Storage, uuid: nat -> Uuid, geocode: string -> Result<Coordinate>,
                                parse: string -> Option<LocalDate>)
    requires Valid(st)
    requires |a| == 1 && IsTrimmable(a[0]) && !IsWhitespace(a[0])
    ensures var r := Patch(l, EmptyRequest.(address := Some(a)), images, st, uuid, geocode, parse);
            && (r.Success? <==> l.details.address == "" || geocode("").Success?)
            && (r.Success? ==> r.value.listing.details.address == "")
  {
    ControlCharTrimsAway(a);
    PatchAddressCoordinates(l, a, images, st, uuid, geocode, parse);
  }

  /** A geocoder that refuses a blank query, as the NCP geocoder does with
      `IllegalArgumentException("Address must not be blank")`, turns such
      an address into that exception rather than the service's own
      BAD_REQUEST: the service's blank check lets it through. */
  lemma PatchControlCharAddressRejectedByGeocoder(l: Listing, a: string, images: Option<seq<Option<UploadFile>>>,
                                                  st: Storage, uuid: nat -> Uuid,
                                                  geocode: string -> Result<Coordinate>,
                                                  parse: string -> Option<LocalDate>)
    requires Valid(st)
    requires |a| == 1 && IsTrimmable(a[0]) && !IsWhitespace(a[0])
    requires l.details.address != ""
    requires geocode("") == Error(IllegalArgument(AddressMustNotBeBlank))
    ensures Patch(l, EmptyRequest.(address := Some(a)), images, st, uuid, geocode, parse)
            == Error(IllegalArgument(AddressMustNotBeBlank))
  {
    ControlCharTrimsAway(a);
    PatchAddressCoordinates(l, a, images, st, uuid, geocode, parse);
  }

  /** A present but blank move-in date clears the stored date. */
  lemma PatchBlankMoveInDateClears(l: Listing, text: string, images: Option<seq<Option<UploadFile>>>,
                                   st: Storage, uuid: nat -> Uuid, geocode: string -> Result<Coordinate>,
                                   parse: string -> Option<LocalDate>)
    requires Valid(st)
    requires IsBlank(text)
    ensures var r := Patch(l, EmptyRequest.(moveInDate := Some(text)), images, st, uuid, geocode, parse);
            r.Success? && r.value.listing.details.moveInDate.None?
  {
  }

  // ---------------------------------------------------------------------
  // Lookup by id

  /** The listings, by id. */
  type Repository = map<int, Listing>

  /** `findByIdOrThrow`. */
  function FindById(repo: Repository, id: int): (r: Result<Listing>)
    ensures id in repo <==> r.Success?
    ensures r.Success? ==> r.value == repo[id]
    ensures r.Error? ==> r.failure == ResponseStatus(NotFound, ListingNotFound + LongToString(id))
  {
    if id in repo then Success(repo[id])
    else Error(ResponseStatus(NotFound, ListingNotFound + LongToString(id)))
  }

  /** The "not found" message names the id: two ids never share one. */
  lemma NotFoundNamesId(repo: Repository, a: int, b: int)
    requires a !in repo && b !in repo && a != b
    ensures FindById(repo, a) != FindById(repo, b)
  {
    var ma := ListingNotFound + LongToString(a);
    var mb := ListingNotFound + LongToString(b);
    ParseLongToString(a);
    ParseLongToString(b);
    assert ma[|ListingNotFound|..] == LongToString(a);
    assert mb[|ListingNotFound|..] == LongToString(b);
  }

  datatype PatchedRepository = PatchedRepository(repo: Repository, storage: Storage, events: seq<StorageEvent>)

  /** `patch(id, request, images)`: an unknown id fails with 404;
      otherwise `patch` runs on the found listing, its failure passes through
      unchanged, and on success only that listing is replaced. */
  function PatchById(repo: Repository, id: int, req: UpdateListingRequest,
                     images: Option<seq<Option<UploadFile>>>, st: Storage, uuid: nat -> Uuid,
                     geocode: string -> Result<Coordinate>, parse: string -> Option<LocalDate>): (r: Result<PatchedRepository>)
    requires Valid(st)
    ensures id !in repo ==> r == Error(ResponseStatus(NotFound, ListingNotFound + LongToString(id)))
    ensures id in repo ==> (r.Success? <==> Patch(repo[id], req, images, st, uuid, geocode, parse).Success?)
    ensures r.Success? ==>
              && id in repo
              && r.value.repo.Keys == repo.Keys
              && r.value.repo[id] == Patch(repo[id], req, images, st, uuid, geocode, parse).value.listing
              && (forall other :: other in repo && other != id ==> r.value.repo[other] == repo[other])
    ensures id in repo && r.Error? ==> r.failure == Patch(repo[id], req, images, st, uuid, geocode, parse).failure
    ensures r.Success? ==>
              && r.value.storage == Patch(repo[id], req, images, st, uuid, geocode, parse).value.storage
              && r.value.events == Patch(repo[id], req, images, st, uuid, geocode, parse).value.events
  {
    match FindById(repo, id)
    case Error(f) => Error(f)
    case Success(l) =>
      match Patch(l, req, images, st, uuid, geocode, parse)
      case Error(f) => Error(f)
      case Success(p) => Success(PatchedRepository(repo[id := p.listing], p.storage, p.events))
  }

  /** After a successful `patch(id, …)` the listing is found under the same
      id as the patched one, and `patch` leaves the set of listings as it was. */
  lemma PatchByIdThenFind(repo: Repository, id: int, req: UpdateListingRequest,
                          images: Option<seq<Option<UploadFile>>>, st: Storage, uuid: nat -> Uuid,
                          geocode: string -> Result<Coordinate>, parse: string -> Option<LocalDate>)
    requires Valid(st)
    requires PatchById(repo, id, req, images, st, uuid, geocode, parse).Success?
    ensures var after := PatchById(repo, id, req, images, st, uuid, geocode, parse).value.repo;
            && FindById(after, id) == Success(Patch(repo[id], req, images, st, uuid, geocode, parse).value.listing)
            && FindById(after, id).value.id == repo[id].id
            && (forall other :: FindById(after, other).Success? <==> FindById(repo, other).Success?)
  {
  }

  /** What `delete` leaves behind: the listings without the deleted one,
      and the storage delete it issued. */
  datatype Deleted = Deleted(repo: Repository, events: seq<StorageEvent>)

  /** `delete(id)`: an unknown id fails with 404; otherwise one storage
      delete names every image path of the listing, in image order and even
      when there is none, and then the listing is removed. A `null` image
      list fails on the stream. */
  function DeleteById(repo: Repository, id: int): (r: Result<Deleted>)
    ensures id !in repo ==> r == Error(ResponseStatus(NotFound, ListingNotFound + LongToString(id)))
    ensures r.Success? <==> id in repo && repo[id].images.Some?
    ensures id in repo && repo[id].images.None? ==> r == Error(NullPointer)
    ensures r.Success? ==>
              && r.value.repo.Keys == repo.Keys - {id}
              && (forall other :: other in r.value.repo ==> r.value.repo[other] == repo[other])
              && r.value.events == [Delete(PathsOf(repo[id].images.value))]
              && |r.value.events[0].paths| == |repo[id].images.value|
              && (forall q :: q in r.value.events[0].paths <==> q in PathSet(repo[id].images.value))
  {
    var l :- FindById(repo, id);
    if l.images.None? then Error(NullPointer)
    else Success(Deleted(repo - {id}, [Delete(PathsOf(l.images.value))]))
  }

  /** Once deleted, a listing is not found any more, and deleting it again
      fails with 404. */
  lemma DeleteThenFind(repo: Repository, id: int)
    requires DeleteById(repo, id).Success?
    ensures var after := DeleteById(repo, id).value.repo;
            && FindById(after, id) == Error(ResponseStatus(NotFound, ListingNotFound + LongToString(id)))
            && DeleteById(after, id).Error?
  {
  }

  /** `patchSold`: an unknown id fails with 404; otherwise only that
      listing's `sold` column changes. */
  function PatchSold(repo: Repository, id: int, sold: bool): (r: Result<Repository>)
    ensures id !in repo ==> r == Error(ResponseStatus(NotFound, ListingNotFound + LongToString(id)))
    ensures id in repo ==> r.Success?
    ensures r.Success? ==>
              && r.value.Keys == repo.Keys
              && r.value[id].details.sold == sold
              && r.value[id].details.(sold := repo[id].details.sold) == repo[id].details
              && r.value[id].images == repo[id].images
              && (forall other :: other in repo && other != id ==> r.value[other] == repo[other])
  {
    match FindById(repo, id)
    case Error(f) => Error(f)
    case Success(l) => Success(repo[id := UpdateSold(l, sold)])
  }

  /** `patchSold` is a `patch` that only sets `sold`, once the listing
      has a loan-product list: both leave the same listing behind. */
  lemma PatchSoldIsPatch(repo: Repository, id: int, sold: bool, st: Storage, uuid: nat -> Uuid,
                         geocode: string -> Result<Coordinate>, parse: string -> Option<LocalDate>)
    requires Valid(st)
    requires id in repo && repo[id].details.loanProducts.Some?
    ensures var r := PatchById(repo, id, EmptyRequest.(sold := Some(sold)), None, st, uuid, geocode, parse);
            r.Success? && r.value.repo == PatchSold(repo, id, sold).value && r.value.events == []
  {
    var l := repo[id];
    var req := EmptyRequest.(sold := Some(sold));
    var d := MergeDetails(l, req, geocode, parse).value;
    assert d == l.details.(sold := sold);
    UpdateSoldIsUpdateDetails(l, sold);
    NoWriteWithoutContent(st, [], uuid, 0);
  }

  // ---------------------------------------------------------------------
  // Address search

  /** The keyword check of `searchByAddress`: a `null` or blank keyword is
      refused; otherwise the search runs on the trimmed keyword. */
  function SearchKeyword(keyword: Option<string>): (r: Result<string>)
    ensures r.Error? <==> keyword.None? || IsBlank(keyword.value)
    ensures r.Error? ==> r.failure == ResponseStatus(BadRequest, AddressKeywordMustNotBeBlank)
    ensures r.Success? ==> r.value == Trim(keyword.value) && |r.value| <= |keyword.value|
  {
    if keyword.None? || IsBlank(keyword.value) then Error(ResponseStatus(BadRequest, AddressKeywordMustNotBeBlank))
    else Success(Trim(keyword.value))
  }

  /** Unless the keyword holds a control character that is not
      whitespace, or a non-ASCII character, the check is exactly "something
      is left after trimming". */
  lemma SearchKeywordPlain(keyword: string)
    requires forall k :: 0 <= k < |keyword| ==> keyword[k] < '\U{0080}'
    requires forall k :: 0 <= k < |keyword| && IsTrimmable(keyword[k]) ==> IsWhitespace(keyword[k])
    ensures SearchKeyword(Some(keyword)).Error? <==> Trim(keyword) == []
  {
    if IsBlank(keyword) {
      AsciiBlankTrimsToEmpty(keyword);
    } else {
      var k :| 0 <= k < |keyword| && !IsWhitespace(keyword[k]);
      var t := Trim(keyword);
      var i :| TrimmedAt(keyword, t, i);
    }
  }

  /** A control character below U+0020 that is not whitespace passes the
      check yet trims to nothing: U+0001 searches for the empty string,
      which every address contains. */
  lemma SearchKeywordControlChar()
    ensures SearchKeyword(Some("\U{0001}")) == Success("")
  {
    BlankAndTrimDisagree();
  }
}
