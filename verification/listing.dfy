/** The listing aggregate: its detail fields, its ordered image list, and
    the three mutators the service calls on it. An entity is a value here;
    a mutator returns the updated listing. */
module Listings {
  import opened Outcomes

  /** A constant of one of the listing's enums (parking, elevator, pet,
      contract type, room type, loan product), identified by its name. The
      enum declarations themselves are not part of this model. */
  datatype Constant = Constant(name: string)

  type AvailabilityStatus = Constant
  type ElevatorStatus = Constant
  type ContractType = Constant
  type RoomType = Constant
  type LoanProduct = Constant

  datatype LocalDate = LocalDate(year: int, month: int, day: int)

  /** A geocoded position. */
  datatype Coordinate = Coordinate(latitude: real, longitude: real)

  /** A stored image row: its generated id (absent until persisted) and
      its path. */
  datatype Image = Image(id: Option<int>, imagePath: string)

  /** The fourteen columns `updateDetails` assigns. */
  datatype Details = Details(
    address: string,
    note: Option<string>,
    parking: AvailabilityStatus,
    elevator: ElevatorStatus,
    pet: AvailabilityStatus,
    contractType: ContractType,
    roomType: RoomType,
    loanProducts: Option<seq<LoanProduct>>,
    moveInDate: Option<LocalDate>,
    deposit: int,
    monthlyRent: int,
    sold: bool,
    latitude: real,
    longitude: real)

  /** A listing: id, detail columns and the image collection, which is a
      list that may be `null`. */
  datatype Listing = Listing(id: int, details: Details, images: Option<seq<Image>>)

  /** The paths of `images`, in order. */
  function PathsOf(images: seq<Image>): (r: seq<string>)
    ensures |r| == |images|
    ensures forall i :: 0 <= i < |images| ==> r[i] == images[i].imagePath
  {
    seq(|images|, i requires 0 <= i < |images| => images[i].imagePath)
  }

  /** A fresh, not yet persisted image for `path`. */
  function NewImage(path: string): Image {
    Image(None, path)
  }

  /** `addImagePath`: a `null` image list becomes empty first; then one new
      image with the given path goes at the end. */
  function AddImagePath(l: Listing, path: string): (r: Listing)
    ensures r.id == l.id && r.details == l.details
    ensures r.images.Some?
    ensures |r.images.value| == |l.images.GetOr([])| + 1
    ensures r.images.value[..|l.images.GetOr([])|] == l.images.GetOr([])
    ensures r.images.value[|r.images.value| - 1] == NewImage(path)
  {
    var images := if l.images.None? then [] else l.images.value;
    l.(images := Some(images + [NewImage(path)]))
  }

  /** Adds one image per path, one after the other, in the order given. */
  function AddImagePaths(l: Listing, paths: seq<string>): (r: Listing)
    ensures r.id == l.id && r.details == l.details
    ensures paths != [] ==> r.images.Some?
    decreases |paths|
  {
    if paths == [] then l
    else AddImagePaths(AddImagePath(l, paths[0]), paths[1..])
  }

  /** One fresh image per path, in order. */
  function NewImages(paths: seq<string>): (r: seq<Image>)
    ensures |r| == |paths|
    ensures forall i :: 0 <= i < |paths| ==> r[i] == NewImage(paths[i])
  {
    if paths == [] then [] else [NewImage(paths[0])] + NewImages(paths[1..])
  }

  /** Adding paths one by one appends one fresh image per path, in order,
      after the images already there. */
  lemma {:induction false} AddImagePathsAppends(l: Listing, paths: seq<string>)
    ensures paths != [] ==> AddImagePaths(l, paths).images == Some(l.images.GetOr([]) + NewImages(paths))
    ensures paths == [] ==> AddImagePaths(l, paths) == l
    decreases |paths|
  {
    if paths != [] {
      var x := NewImage(paths[0]);
      var before := l.images.GetOr([]);
      var l1 := AddImagePath(l, paths[0]);
      assert l1.images == Some(before + [x]);
      assert AddImagePaths(l, paths) == AddImagePaths(l1, paths[1..]);
      AddImagePathsAppends(l1, paths[1..]);
      var rest := NewImages(paths[1..]);
      assert NewImages(paths) == [x] + rest;
      if paths[1..] == [] {
        assert rest == [];
        assert NewImages(paths) == [x];
      } else {
        assert (before + [x]) + rest == before + ([x] + rest);
      }
    }
  }

  /** The paths after adding are the old paths followed by the added ones. */
  lemma AddImagePathsPaths(l: Listing, paths: seq<string>)
    requires l.images.Some? || paths != []
    ensures AddImagePaths(l, paths).images.Some?
    ensures PathsOf(AddImagePaths(l, paths).images.value) == PathsOf(l.images.GetOr([])) + paths
  {
    AddImagePathsAppends(l, paths);
    var before := l.images.GetOr([]);
    var after := AddImagePaths(l, paths).images.value;
    if paths == [] {
      assert after == before;
    } else {
      assert after == before + NewImages(paths);
    }
    assert PathsOf(after) == PathsOf(before) + paths;
  }

  /** `updateDetails`: every column takes its argument, except that a
      `null` loan-product list is stored as an empty list. Id and images are
      untouched. */
  function UpdateDetails(l: Listing, d: Details): (r: Listing)
    ensures r.id == l.id && r.images == l.images
    ensures r.details.loanProducts == Some(d.loanProducts.GetOr([]))
    ensures r.details.(loanProducts := d.loanProducts) == d
  {
    var loanProducts := if d.loanProducts.None? then [] else d.loanProducts.value;
    l.(details := d.(loanProducts := Some(loanProducts)))
  }

  /** `updateSold`: only the `sold` column changes. */
  function UpdateSold(l: Listing, sold: bool): (r: Listing)
    ensures r.details.sold == sold
    ensures r.details.(sold := l.details.sold) == l.details
    ensures r.id == l.id && r.images == l.images
  {
    l.(details := l.details.(sold := sold))
  }

  /** `updateDetails` overwrites every column: the old details do not
      matter, and applying it twice is applying it once. */
  lemma UpdateDetailsOverwrites(l1: Listing, l2: Listing, d: Details)
    ensures UpdateDetails(l1, d).details == UpdateDetails(l2, d).details
    ensures UpdateDetails(UpdateDetails(l1, d), d) == UpdateDetails(l1, d)
  {
  }

  /** `updateSold` agrees with `updateDetails` called with the listing's
      own details and the new flag, once the loan-product list is present. */
  lemma UpdateSoldIsUpdateDetails(l: Listing, sold: bool)
    requires l.details.loanProducts.Some?
    ensures UpdateSold(l, sold) == UpdateDetails(l, l.details.(sold := sold))
  {
  }
}
