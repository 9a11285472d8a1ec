/** The local image store: uploaded files are written under one upload
    directory as `<uuid><extension>`, reported to callers as
    `/api/images/<uuid><extension>`, and read back by name only when the
    name resolves inside that directory. The file system is a map from
    absolute path to content; random UUIDs are drawn from a supplied
    source. */
module ImageStorage {
  import opened Outcomes
  import opened JavaStrings
  import opened UnixPaths
  import opened Collections

  /** Prefix of every path `store` returns. */
  const ImageApiPrefix: string := "/api/images/"

  /** Default value of `app.image.upload-dir`. */
  const DefaultUploadDir: string := "uploads/listings"

  const InvalidImagePath: string := "Invalid image path"
  const FailedToCreateUploadDirectory: string := "Failed to create image upload directory"
  const ImageNotFound: string := "Image not found"

  /** Upper bound of the `{1,10}` repetition in the extension pattern. */
  const MaxExtensionChars: nat := 10

  newtype byte = x: int | 0 <= x < 256

  /** A multipart upload: the client's file name (may be absent) and the
      bytes. */
  datatype UploadFile = UploadFile(originalFilename: Option<string>, content: seq<byte>)

  /** `MultipartFile.isEmpty`: no bytes were uploaded. */
  predicate IsEmptyFile(f: UploadFile) {
    |f.content| == 0
  }

  /** The store: the normalized absolute upload directory and the file
      system, as a map from absolute path to content. */
  datatype Storage = Storage(uploadDirectory: Path, files: map<Path, seq<byte>>)

  /** No file sits at `dir` or at any directory above it, so the whole
      chain can be (or already is) a chain of directories. */
  predicate NoFileOnDirectory(dir: Path, files: map<Path, seq<byte>>) {
    forall p :: p in files ==> !StartsWith(dir, p)
  }

  /** The constructor's guarantee: the upload directory is normal, and it
      and every directory above it are directories, not files. */
  predicate Valid(st: Storage) {
    IsNormal(st.uploadDirectory) && NoFileOnDirectory(st.uploadDirectory, st.files)
  }

  /** The constructor: the configured directory made absolute against the
      working directory and normalized; then the directory chain is
      created, which fails when a file is in the way. */
  function Open(uploadDir: string, workingDirectory: Path, files: map<Path, seq<byte>>): (r: Result<Storage>)
    requires IsParsed(workingDirectory)
    ensures r.Success? <==> NoFileOnDirectory(Normalize(Resolve(workingDirectory, uploadDir)), files)
    ensures r.Success? ==> Valid(r.value) && r.value.files == files
    ensures r.Error? ==> r.failure == IllegalState(FailedToCreateUploadDirectory)
  {
    var dir := Normalize(Resolve(workingDirectory, uploadDir));
    if NoFileOnDirectory(dir, files) then Success(Storage(dir, files))
    else Error(IllegalState(FailedToCreateUploadDirectory))
  }

  /** With the default setting and a normal working directory, images live
      in `<working directory>/uploads/listings`; creating it fails exactly
      when a file sits on that chain. */
  lemma DefaultUploadDirectory(workingDirectory: Path, files: map<Path, seq<byte>>)
    requires IsNormal(workingDirectory)
    ensures var dir := workingDirectory + ["uploads", "listings"];
            var r := Open(DefaultUploadDir, workingDirectory, files);
            && (r.Success? <==> NoFileOnDirectory(dir, files))
            && (r.Success? ==> r.value.uploadDirectory == dir)
  {
    assert DefaultUploadDir == "uploads" + "/" + "listings";
    ResolveTwoNames(workingDirectory, "uploads", "listings");
  }

  // ---------------------------------------------------------------------
  // File extensions

  predicate IsAsciiAlphanumeric(c: char) {
    ('A' <= c <= 'Z') || ('a' <= c <= 'z') || ('0' <= c <= '9')
  }

  /** A text matching `\.[A-Za-z0-9]{1,10}` as a whole. */
  predicate IsExtension(e: string) {
    && 2 <= |e| <= MaxExtensionChars + 1
    && e[0] == '.'
    && forall k :: 1 <= k < |e| ==> IsAsciiAlphanumeric(e[k])
  }

  /** The extension kept from the client's file name: the text from the
      last `.` on when it matches the pattern, otherwise empty. */
  function ExtractExtension(fileName: Option<string>): (r: string)
    ensures r == [] || IsExtension(r)
    ensures r != [] ==> fileName.Some? && |r| <= |fileName.value|
                        && r == fileName.value[|fileName.value| - |r|..]
                        && '.' !in r[1..]
  {
    if fileName.None? || IsBlank(fileName.value) then ""
    else
      var name := fileName.value;
      var dotIndex := LastIndexOf(name, '.');
      if dotIndex < 0 || dotIndex == |name| - 1 then ""
      else
        var extension := name[dotIndex..];
        if IsExtension(extension) then extension else ""
  }

  /** A kept extension is short and safe: at most 11 characters, a single
      leading dot, no slash or backslash and hence no `..`. */
  lemma ExtensionIsSafe(fileName: Option<string>)
    ensures var e := ExtractExtension(fileName);
            && |e| <= 11
            && '/' !in e && '\\' !in e
            && forall k :: 0 <= k < |e| - 1 ==> !(e[k] == '.' && e[k + 1] == '.')
  {
    var e := ExtractExtension(fileName);
    if e != [] {
      assert forall k :: 1 <= k < |e| ==> e[k] != '.' && e[k] != '/' && e[k] != '\\';
    }
  }

  /** A file name made of any stem followed by a valid extension keeps
      exactly that extension. */
  lemma ExtensionOfStemAndExtension(stem: string, e: string)
    requires IsExtension(e)
    ensures ExtractExtension(Some(stem + e)) == e
  {
    var name := stem + e;
    assert name[|stem| + 1] == e[1];
    assert !IsBlank(name);
    assert name[|stem|] == '.';
    assert forall k :: |stem| < k < |name| ==> name[k] == e[k - |stem|];
    var d := LastIndexOf(name, '.');
    assert d == |stem|;
    assert name[d..] == e;
  }

  /** No extension is kept for an absent or blank name, a name without a
      dot, or a name ending in a dot. */
  lemma NoExtension(fileName: Option<string>)
    requires || fileName.None?
             || IsBlank(fileName.value)
             || '.' !in fileName.value
             || (|fileName.value| > 0 && fileName.value[|fileName.value| - 1] == '.')
    ensures ExtractExtension(fileName) == ""
  {
  }

  // ---------------------------------------------------------------------
  // Saved file names

  predicate IsLowerHexDigit(c: char) {
    ('0' <= c <= '9') || ('a' <= c <= 'f')
  }

  /** Character `i` of a UUID text: a dash at the four group boundaries,
      a lower-case hex digit elsewhere. */
  predicate UuidCharAt(s: string, i: nat)
    requires i < |s|
  {
    if i == 8 || i == 13 || i == 18 || i == 23 then s[i] == '-' else IsLowerHexDigit(s[i])
  }

  /** The text of `UUID.randomUUID()`: the 8-4-4-4-12 lower-case hex form
      of section 3 of RFC 4122, version 4 and the RFC 4122 variant. */
  predicate IsUuidText(s: string) {
    && |s| == 36
    && (forall i: nat :: i < 36 ==> UuidCharAt(s, i))
    && s[14] == '4'
    && s[19] in "89ab"
  }

  type Uuid = s: string | IsUuidText(s) witness "00000000-0000-4000-8000-000000000000"

  /** The name a file is saved under. */
  function SavedFileName(token: Uuid, f: UploadFile): string {
    token + ExtractExtension(f.originalFilename)
  }

  /** A saved name is one plain, relative name element. */
  lemma SavedFileNameIsName(token: Uuid, f: UploadFile)
    ensures IsName(SavedFileName(token, f))
    ensures !IsAbsolute(SavedFileName(token, f))
    ensures Elements(SavedFileName(token, f)) == [SavedFileName(token, f)]
  {
    var e := ExtractExtension(f.originalFilename);
    var name := token + e;
    ExtensionIsSafe(f.originalFilename);
    forall k | 0 <= k < |token|
      ensures name[k] != '/'
    {
      assert UuidCharAt(token, k);
      assert name[k] == token[k];
    }
    forall k | |token| <= k < |name|
      ensures name[k] != '/'
    {
      assert name[k] == e[k - |token|];
    }
    assert UuidCharAt(token, 0);
    assert name[0] == token[0];
    ElementsOfName(name);
  }

  /** Distinct tokens give distinct saved names, since every token has the
      same length. */
  lemma SavedFileNamesDistinct(t1: Uuid, f1: UploadFile, t2: Uuid, f2: UploadFile)
    requires t1 != t2
    ensures SavedFileName(t1, f1) != SavedFileName(t2, f2)
  {
    var n1 := SavedFileName(t1, f1);
    var n2 := SavedFileName(t2, f2);
    assert n1[..36] == t1;
    assert n2[..36] == t2;
  }

  // ---------------------------------------------------------------------
  // save, store and load

  /** The outcome of `save`: the saved name and the new store. */
  datatype Saved = Saved(fileName: string, storage: Storage)

  /** `save`: writes the upload to `<upload dir>/<token><extension>`,
      replacing any file there, after checking the destination stays
      inside the upload directory. The check never fails. */
  function Save(st: Storage, f: UploadFile, token: Uuid): (r: Result<Saved>)
    requires Valid(st)
    ensures r.Success?
    ensures r.value.fileName == SavedFileName(token, f)
    ensures r.value.storage.uploadDirectory == st.uploadDirectory
    ensures r.value.storage.files == st.files[st.uploadDirectory + [r.value.fileName] := f.content]
    ensures Valid(r.value.storage)
  {
    var savedFileName := token + ExtractExtension(f.originalFilename);
    var destination := Normalize(Resolve(st.uploadDirectory, savedFileName));
    SavedFileNameIsName(token, f);
    assert IsNormal(st.uploadDirectory + [savedFileName]);
    if !StartsWith(destination, st.uploadDirectory) then
      Error(IllegalArgument(InvalidImagePath))
    else
      Success(Saved(savedFileName, st.(files := st.files[destination := f.content])))
  }

  /** The uploads that get saved: the present, non-empty ones, in order. */
  function NonEmptyFiles(files: seq<Option<UploadFile>>): (r: seq<UploadFile>)
    ensures |r| <= |files|
    ensures forall i :: 0 <= i < |r| ==> !IsEmptyFile(r[i])
    ensures forall f :: f in r <==> (Some(f) in files && !IsEmptyFile(f))
  {
    if files == [] then []
    else if files[0].None? || IsEmptyFile(files[0].value) then NonEmptyFiles(files[1..])
    else [files[0].value] + NonEmptyFiles(files[1..])
  }

  /** Filtering works upload by upload and keeps the input order. */
  lemma {:induction false} NonEmptyFilesAppend(a: seq<Option<UploadFile>>, b: seq<Option<UploadFile>>)
    ensures NonEmptyFiles(a + b) == NonEmptyFiles(a) + NonEmptyFiles(b)
    decreases |a|
  {
    if a == [] {
      assert a + b == b;
    } else {
      assert (a + b)[0] == a[0];
      assert (a + b)[1..] == a[1..] + b;
      NonEmptyFilesAppend(a[1..], b);
    }
  }

  /** A single upload is kept exactly when it is present and not empty. */
  lemma NonEmptyFilesSingle(f: Option<UploadFile>)
    ensures NonEmptyFiles([f]) == if f.Some? && !IsEmptyFile(f.value) then [f.value] else []
  {
  }

  /** The outcome of `store`: the returned image paths and the new store. */
  datatype Stored = Stored(imagePaths: seq<string>, storage: Storage)

  /** `paths` are the API paths of `saved`, the `i`-th one under token
      `uuid(next + i)`. */
  predicate ApiPathsOf(paths: seq<string>, saved: seq<UploadFile>, uuid: nat -> Uuid, next: nat) {
    && |paths| == |saved|
    && forall i {:trigger paths[i]} :: 0 <= i < |saved| ==>
         paths[i] == ImageApiPrefix + SavedFileName(uuid(next + i), saved[i])
  }

  /** The `j`-th path of a list that starts at draw `next + 1` uses draw
      `next + 1 + j`. */
  lemma ApiPathAt(paths: seq<string>, saved: seq<UploadFile>, uuid: nat -> Uuid, next: nat, j: nat, k: nat)
    requires ApiPathsOf(paths, saved, uuid, next + 1)
    requires j < |saved| && k == next + 1 + j
    ensures paths[j] == ImageApiPrefix + SavedFileName(uuid(k), saved[j])
  {
  }

  lemma ApiPathsCons(name: string, f: UploadFile, paths: seq<string>, saved: seq<UploadFile>, uuid: nat -> Uuid, next: nat)
    requires name == SavedFileName(uuid(next), f)
    requires ApiPathsOf(paths, saved, uuid, next + 1)
    ensures ApiPathsOf([ImageApiPrefix + name] + paths, [f] + saved, uuid, next)
  {
    var all := [f] + saved;
    var ps := [ImageApiPrefix + name] + paths;
    forall i | 0 <= i < |all|
      ensures ps[i] == ImageApiPrefix + SavedFileName(uuid(next + i), all[i])
    {
      if i > 0 {
        ApiPathAt(paths, saved, uuid, next, i - 1, next + i);
        assert ps[i] == paths[i - 1] && all[i] == saved[i - 1];
      } else {
        assert next + i == next;
        assert ps[i] == ImageApiPrefix + name && all[i] == f;
      }
    }
  }

  /** Saves the non-empty uploads among `files`, the `i`-th saved one under
      token `uuid(next + i)`. */
  function StoreFrom(st: Storage, files: seq<Option<UploadFile>>, uuid: nat -> Uuid, next: nat): (r: Result<Stored>)
    requires Valid(st)
    ensures r.Success?
    ensures Valid(r.value.storage)
    ensures r.value.storage.uploadDirectory == st.uploadDirectory
    ensures ApiPathsOf(r.value.imagePaths, NonEmptyFiles(files), uuid, next)
    decreases |files|
  {
    if files == [] then Success(Stored([], st))
    else if files[0].None? || IsEmptyFile(files[0].value) then StoreFrom(st, files[1..], uuid, next)
    else
      match Save(st, files[0].value, uuid(next))
      case Error(e) => Error(e)
      case Success(saved) =>
        var rest := StoreFrom(saved.storage, files[1..], uuid, next + 1).value;
        ApiPathsCons(saved.fileName, files[0].value, rest.imagePaths, NonEmptyFiles(files[1..]), uuid, next);
        Success(Stored([ImageApiPrefix + saved.fileName] + rest.imagePaths, rest.storage))
  }

  /** `store`: an absent or empty list stores nothing; otherwise every
      present, non-empty upload is saved, and its API path is returned, in
      input order. */
  function Store(st: Storage, imageFiles: Option<seq<Option<UploadFile>>>, uuid: nat -> Uuid): (r: Result<Stored>)
    requires Valid(st)
    ensures r.Success?
    ensures Valid(r.value.storage)
    ensures r.value.storage.uploadDirectory == st.uploadDirectory
    ensures imageFiles.None? ==> r.value.imagePaths == [] && r.value.storage == st
    ensures ApiPathsOf(r.value.imagePaths, if imageFiles.None? then [] else NonEmptyFiles(imageFiles.value), uuid, 0)
  {
    if imageFiles.None? || |imageFiles.value| == 0 then Success(Stored([], st))
    else StoreFrom(st, imageFiles.value, uuid, 0)
  }

  /** `load`: resolves the name against the upload directory and
      normalizes it; a result outside the directory is an invalid path, a
      missing file is not found. A successful load only ever returns the
      content of a file inside the upload directory. */
  function Load(st: Storage, fileName: string): (r: Result<seq<byte>>)
    ensures r.Success? ==> exists p :: p in st.files && StartsWith(p, st.uploadDirectory) && r.value == st.files[p]
    ensures r.Error? ==> r.failure == IllegalArgument(InvalidImagePath) || r.failure == IllegalArgument(ImageNotFound)
  {
    var path := Normalize(Resolve(st.uploadDirectory, fileName));
    if !StartsWith(path, st.uploadDirectory) then Error(IllegalArgument(InvalidImagePath))
    else if path !in st.files then Error(IllegalArgument(ImageNotFound))
    else Success(st.files[path])
  }

  /** Every name whose resolved, normalized path leaves the upload
      directory is an invalid path, whether or not such a file exists. */
  lemma LoadRejectsEscape(st: Storage, fileName: string)
    requires !StartsWith(Normalize(Resolve(st.uploadDirectory, fileName)), st.uploadDirectory)
    ensures Load(st, fileName) == Error(IllegalArgument(InvalidImagePath))
  {
  }

  /** Every name whose resolved, normalized path stays inside the upload
      directory loads exactly the file at that path, or is not found. */
  lemma LoadContainedName(st: Storage, fileName: string)
    requires StartsWith(Normalize(Resolve(st.uploadDirectory, fileName)), st.uploadDirectory)
    ensures var p := Normalize(Resolve(st.uploadDirectory, fileName));
            Load(st, fileName) == if p in st.files then Success(st.files[p])
                                  else Error(IllegalArgument(ImageNotFound))
  {
  }

  /** A name that normalizes to the upload directory itself names a
      directory, which is not a readable file: "Image not found". */
  lemma LoadDirectoryItself(st: Storage, fileName: string)
    requires Valid(st)
    requires Normalize(Resolve(st.uploadDirectory, fileName)) == st.uploadDirectory
    ensures Load(st, fileName) == Error(IllegalArgument(ImageNotFound))
  {
    assert StartsWith(st.uploadDirectory, st.uploadDirectory);
  }

  /** For example, the empty name and `.` are not found. */
  lemma LoadEmptyOrDot(st: Storage)
    requires Valid(st)
    ensures Load(st, "") == Error(IllegalArgument(ImageNotFound))
    ensures Load(st, ".") == Error(IllegalArgument(ImageNotFound))
  {
    var dir := st.uploadDirectory;
    assert Resolve(dir, "") == dir;
    LoadDirectoryItself(st, "");
    ElementsOfName(".");
    assert Resolve(dir, ".") == dir + ["."];
    NormalizeFromAppend([], dir, ["."]);
    assert NormalizeFrom(dir, ["."]) == dir;
    LoadDirectoryItself(st, ".");
  }

  /** A plain relative name (no `.` or `..` element) is looked up directly
      below the upload directory: never an invalid path, found exactly
      when that file exists. */
  lemma LoadPlainName(st: Storage, fileName: string)
    requires Valid(st)
    requires !IsAbsolute(fileName) && IsNormal(Elements(fileName))
    ensures var p := st.uploadDirectory + Elements(fileName);
            && (p in st.files ==> Load(st, fileName) == Success(st.files[p]))
            && (p !in st.files ==> Load(st, fileName) == Error(IllegalArgument(ImageNotFound)))
  {
    var p := st.uploadDirectory + Elements(fileName);
    assert IsNormal(p);
    assert Normalize(Resolve(st.uploadDirectory, fileName)) == p;
    LoadContainedName(st, fileName);
  }

  /** `../x` is refused as an invalid path unless `x` happens to be the
      upload directory's own name. */
  lemma LoadRejectsParentEscape(st: Storage, x: string)
    requires IsNormal(st.uploadDirectory) && |st.uploadDirectory| >= 1
    requires IsName(x) && x != st.uploadDirectory[|st.uploadDirectory| - 1]
    ensures Load(st, "../" + x) == Error(IllegalArgument(InvalidImagePath))
  {
    ParentThenName(st.uploadDirectory, x);
  }

  /** An absolute name is taken as it stands: one outside the upload
      directory is refused. */
  lemma LoadRejectsAbsoluteOutside(st: Storage, fileName: string)
    requires IsAbsolute(fileName) && IsNormal(Elements(fileName))
    requires !StartsWith(Elements(fileName), st.uploadDirectory)
    ensures Load(st, fileName) == Error(IllegalArgument(InvalidImagePath))
  {
  }

  /** Containment is element-wise: `../x/y` lands in the sibling
      directory `x`, which is outside even when its name extends the upload
      directory's name as text. */
  lemma LoadRejectsSiblingDirectory(st: Storage, x: string, y: string)
    requires IsNormal(st.uploadDirectory) && |st.uploadDirectory| >= 1
    requires IsName(x) && IsName(y) && x != st.uploadDirectory[|st.uploadDirectory| - 1]
    ensures Load(st, "../" + x + "/" + y) == Error(IllegalArgument(InvalidImagePath))
  {
    ParentThenTwoNames(st.uploadDirectory, x, y);
  }

  /** For example, with uploads in `/tmp/uploads`, `../uploads-evil/x.jpg`
      is refused although `/tmp/uploads-evil/x.jpg` begins with
      `/tmp/uploads` as text. */
  lemma LoadRejectsLookalikeSibling(st: Storage)
    requires st.uploadDirectory == ["tmp", "uploads"]
    ensures Load(st, "../uploads-evil/x.jpg") == Error(IllegalArgument(InvalidImagePath))
  {
    assert "../uploads-evil/x.jpg" == "../" + "uploads-evil" + "/" + "x.jpg";
    LoadRejectsSiblingDirectory(st, "uploads-evil", "x.jpg");
  }

  // ---------------------------------------------------------------------
  // Round trip

  /** `uuid` draws pairwise distinct tokens at indices `next .. next + n - 1`. */
  predicate DistinctDraws(uuid: nat -> Uuid, next: nat, n: nat) {
    forall i, j :: next <= i < j < next + n ==> uuid(i) != uuid(j)
  }

  /** The names the uploads `saved` are saved under, the `i`-th one under
      token `uuid(next + i)`. */
  function SavedNames(saved: seq<UploadFile>, uuid: nat -> Uuid, next: nat): (r: seq<string>)
    ensures |r| == |saved|
    decreases |saved|
  {
    if saved == [] then [] else [SavedFileName(uuid(next), saved[0])] + SavedNames(saved[1..], uuid, next + 1)
  }

  lemma {:induction false} SavedNameAt(saved: seq<UploadFile>, uuid: nat -> Uuid, next: nat, i: nat)
    requires i < |saved|
    ensures SavedNames(saved, uuid, next)[i] == SavedFileName(uuid(next + i), saved[i])
    decreases i
  {
    if i > 0 {
      SavedNameAt(saved[1..], uuid, next + 1, i - 1);
      assert saved[1..][i - 1] == saved[i];
      assert next + 1 + (i - 1) == next + i;
    } else {
      assert next + i == next;
    }
  }

  lemma SavedNamesCons(f: UploadFile, tail: seq<UploadFile>, uuid: nat -> Uuid, next: nat)
    ensures SavedNames([f] + tail, uuid, next) == [SavedFileName(uuid(next), f)] + SavedNames(tail, uuid, next + 1)
  {
    assert ([f] + tail)[1..] == tail;
  }

  /** The store holds `content` in the file `name` directly below its
      upload directory. */
  predicate Holds(st: Storage, name: string, content: seq<byte>) {
    var p := st.uploadDirectory + [name];
    p in st.files && st.files[p] == content
  }

  /** Distinct draws give distinct saved names. */
  lemma SavedNamesDistinct(saved: seq<UploadFile>, uuid: nat -> Uuid, next: nat)
    requires DistinctDraws(uuid, next, |saved|)
    ensures NoDuplicates(SavedNames(saved, uuid, next))
  {
    var names := SavedNames(saved, uuid, next);
    forall i, j | 0 <= i < j < |names|
      ensures names[i] != names[j]
    {
      SavedNameAt(saved, uuid, next, i);
      SavedNameAt(saved, uuid, next, j);
      SavedFileNamesDistinct(uuid(next + i), saved[i], uuid(next + j), saved[j]);
    }
  }

  /** The first saved upload and its name split off the rest. */
  lemma StoreFromCons(st: Storage, files: seq<Option<UploadFile>>, uuid: nat -> Uuid, next: nat)
    requires Valid(st)
    requires files != [] && files[0].Some? && !IsEmptyFile(files[0].value)
    ensures NonEmptyFiles(files) == [files[0].value] + NonEmptyFiles(files[1..])
    ensures var names := SavedNames(NonEmptyFiles(files), uuid, next);
            && |names| >= 1
            && names[0] == Save(st, files[0].value, uuid(next)).value.fileName
            && names[1..] == SavedNames(NonEmptyFiles(files[1..]), uuid, next + 1)
    ensures StoreFrom(st, files, uuid, next).value.storage
            == StoreFrom(Save(st, files[0].value, uuid(next)).value.storage, files[1..], uuid, next + 1).value.storage
  {
    var all := NonEmptyFiles(files);
    assert all == [files[0].value] + NonEmptyFiles(files[1..]);
    assert all[1..] == NonEmptyFiles(files[1..]);
    assert all[0] == files[0].value;
  }

  /** Storing leaves every path it does not save to untouched. */
  lemma {:induction false} StoreFromFrame(st: Storage, files: seq<Option<UploadFile>>, uuid: nat -> Uuid, next: nat, q: Path)
    requires Valid(st)
    requires forall n :: n in SavedNames(NonEmptyFiles(files), uuid, next) ==> q != st.uploadDirectory + [n]
    ensures var out := StoreFrom(st, files, uuid, next).value.storage.files;
            && (q in out <==> q in st.files)
            && (q in st.files ==> out[q] == st.files[q])
    decreases |files|
  {
    if files == [] {
    } else if files[0].None? || IsEmptyFile(files[0].value) {
      StoreFromFrame(st, files[1..], uuid, next, q);
    } else {
      StoreFromCons(st, files, uuid, next);
      var saved := Save(st, files[0].value, uuid(next)).value;
      StoreFromFrame(saved.storage, files[1..], uuid, next + 1, q);
    }
  }

  /** When the saved names are distinct, every saved upload's bytes sit
      at its saved name once storing is done. */
  lemma {:induction false} StoreFromWrites(st: Storage, files: seq<Option<UploadFile>>, uuid: nat -> Uuid, next: nat)
    requires Valid(st)
    requires NoDuplicates(SavedNames(NonEmptyFiles(files), uuid, next))
    ensures forall i :: 0 <= i < |NonEmptyFiles(files)| ==>
              Holds(StoreFrom(st, files, uuid, next).value.storage,
                    SavedNames(NonEmptyFiles(files), uuid, next)[i], NonEmptyFiles(files)[i].content)
    decreases |files|
  {
    if files == [] {
    } else if files[0].None? || IsEmptyFile(files[0].value) {
      StoreFromWrites(st, files[1..], uuid, next);
    } else {
      StoreFromCons(st, files, uuid, next);
      var f := files[0].value;
      var saved := Save(st, f, uuid(next)).value;
      var all := NonEmptyFiles(files);
      var tail := NonEmptyFiles(files[1..]);
      var names := SavedNames(all, uuid, next);
      var rest := SavedNames(tail, uuid, next + 1);
      NoDuplicatesTail(names);
      StoreFromWrites(saved.storage, files[1..], uuid, next + 1);
      var p0 := st.uploadDirectory + [saved.fileName];
      assert forall n :: n in rest ==> p0 != st.uploadDirectory + [n] by {
        forall n | n in rest
          ensures p0 != st.uploadDirectory + [n]
        {
          assert (st.uploadDirectory + [n])[|st.uploadDirectory|] == n;
          assert p0[|st.uploadDirectory|] == names[0];
        }
      }
      StoreFromFrame(saved.storage, files[1..], uuid, next + 1, p0);
      var out := StoreFrom(st, files, uuid, next).value.storage;
      forall i | 0 <= i < |all|
        ensures Holds(out, names[i], all[i].content)
      {
        if i > 0 {
          assert names[i] == rest[i - 1] && all[i] == tail[i - 1];
        }
      }
    }
  }

  /** The name in the `i`-th path `store` returns loads the `i`-th saved
      upload's bytes once they sit at that name. */
  lemma LoadSavedName(st: Storage, token: Uuid, f: UploadFile, content: seq<byte>)
    requires Valid(st)
    requires Holds(st, SavedFileName(token, f), content)
    ensures Load(st, SavedFileName(token, f)) == Success(content)
  {
    var name := SavedFileName(token, f);
    SavedFileNameIsName(token, f);
    assert IsNormal(st.uploadDirectory + [name]);
  }

  /** Round trip: with distinct random tokens, each path `store` returns
      names a file that `load` finds inside the upload directory, holding
      exactly the uploaded bytes. */
  lemma StoreThenLoad(st: Storage, imageFiles: seq<Option<UploadFile>>, uuid: nat -> Uuid)
    requires Valid(st)
    requires DistinctDraws(uuid, 0, |NonEmptyFiles(imageFiles)|)
    ensures var stored := Store(st, Some(imageFiles), uuid).value;
            var saved := NonEmptyFiles(imageFiles);
            forall i :: 0 <= i < |stored.imagePaths| ==>
              && ImageApiPrefix <= stored.imagePaths[i]
              && Load(stored.storage, stored.imagePaths[i][|ImageApiPrefix|..]) == Success(saved[i].content)
  {
    var stored := Store(st, Some(imageFiles), uuid).value;
    var saved := NonEmptyFiles(imageFiles);
    if imageFiles != [] {
      var names := SavedNames(saved, uuid, 0);
      SavedNamesDistinct(saved, uuid, 0);
      StoreFromWrites(st, imageFiles, uuid, 0);
      var out := StoreFrom(st, imageFiles, uuid, 0).value.storage;
      assert stored.storage == out && out.uploadDirectory == st.uploadDirectory;
      forall i | 0 <= i < |stored.imagePaths|
        ensures ImageApiPrefix <= stored.imagePaths[i]
        ensures Load(stored.storage, stored.imagePaths[i][|ImageApiPrefix|..]) == Success(saved[i].content)
      {
        SavedNameAt(saved, uuid, 0, i);
        assert 0 + i == i;
        var name := SavedFileName(uuid(i), saved[i]);
        assert names[i] == name;
        assert Holds(out, names[i], saved[i].content);
        assert stored.imagePaths[i] == ImageApiPrefix + name;
        assert stored.imagePaths[i][|ImageApiPrefix|..] == name;
        LoadSavedName(stored.storage, uuid(i), saved[i], saved[i].content);
      }
    }
  }

  /** `store` of an absent list, an empty list, or only absent and empty
      uploads returns no path and writes nothing. */
  lemma StoreSkipsAbsentAndEmpty(st: Storage, imageFiles: Option<seq<Option<UploadFile>>>, uuid: nat -> Uuid)
    requires Valid(st)
    requires imageFiles.Some? ==> forall i :: 0 <= i < |imageFiles.value| ==>
               imageFiles.value[i].None? || IsEmptyFile(imageFiles.value[i].value)
    ensures Store(st, imageFiles, uuid).value.imagePaths == []
    ensures Store(st, imageFiles, uuid).value.storage.files == st.files
  {
    if imageFiles.Some? {
      NoWriteWithoutContent(st, imageFiles.value, uuid, 0);
    }
  }

  lemma {:induction false} NoWriteWithoutContent(st: Storage, files: seq<Option<UploadFile>>, uuid: nat -> Uuid, next: nat)
    requires Valid(st)
    requires forall i :: 0 <= i < |files| ==> files[i].None? || IsEmptyFile(files[i].value)
    ensures NonEmptyFiles(files) == []
    ensures StoreFrom(st, files, uuid, next).value.storage.files == st.files
    decreases |files|
  {
    if files != [] {
      NoWriteWithoutContent(st, files[1..], uuid, next);
    }
  }
}
