/** Absolute Unix paths as `java.nio.file.Path` treats them: a path is the
    sequence of its name elements below the root (`[]` is `/`), a path
    string splits at `/` with empty elements dropped, `resolve` appends a
    relative name, `normalize` drops `.` and cancels `x/..`, and `startsWith`
    compares whole elements. */
module UnixPaths {

  /** The name elements of an absolute path, outermost first. */
  type Path = seq<string>

  /** What a path string can hold between two slashes. */
  predicate IsElement(e: string) {
    e != [] && '/' !in e
  }

  /** An element that names a file or directory (not `.` or `..`). */
  predicate IsName(e: string) {
    IsElement(e) && e != "." && e != ".."
  }

  /** Every element could come from parsing a path string. */
  predicate IsParsed(p: Path) {
    forall i :: 0 <= i < |p| ==> IsElement(p[i])
  }

  /** Normal form: no `.` and no `..` left. */
  predicate IsNormal(p: Path) {
    forall i :: 0 <= i < |p| ==> IsName(p[i])
  }

  /** Length of the leading run of non-slash characters. */
  function ElementLength(s: string): (n: nat)
    ensures n <= |s|
    ensures forall k :: 0 <= k < n ==> s[k] != '/'
    ensures n < |s| ==> s[n] == '/'
  {
    if s == [] || s[0] == '/' then 0 else 1 + ElementLength(s[1..])
  }

  /** The elements of a path string: the text between slashes, with the
      empty texts of repeated, leading or trailing slashes dropped. */
  function Elements(s: string): (r: Path)
    ensures IsParsed(r)
    decreases |s|
  {
    if s == [] then []
    else if s[0] == '/' then Elements(s[1..])
    else
      var n := ElementLength(s);
      [s[..n]] + Elements(s[n..])
  }

  predicate IsAbsolute(s: string) {
    |s| > 0 && s[0] == '/'
  }

  /** `Path.resolve`: an absolute name replaces the base, an empty name
      yields the base, any other name is appended to it. */
  function Resolve(base: Path, name: string): (r: Path)
    ensures IsParsed(base) ==> IsParsed(r)
  {
    if IsAbsolute(name) then Elements(name) else base + Elements(name)
  }

  /** One step of `Path.normalize` on an absolute path: `.` is dropped,
      `..` removes the last name (and is dropped at the root). */
  function Step(acc: Path, e: string): Path {
    if e == "." then acc
    else if e == ".." then (if acc == [] then [] else acc[..|acc| - 1])
    else acc + [e]
  }

  /** Normalizes `rest` onto the already normal prefix `acc`. */
  function NormalizeFrom(acc: Path, rest: Path): (r: Path)
    ensures IsNormal(acc) && IsParsed(rest) ==> IsNormal(r)
    ensures IsNormal(rest) ==> r == acc + rest
    ensures (forall i :: 0 <= i < |rest| ==> rest[i] != "..") ==> |acc| <= |r| && r[..|acc|] == acc
    decreases |rest|
  {
    if rest == [] then acc
    else NormalizeFrom(Step(acc, rest[0]), rest[1..])
  }

  /** `Path.normalize` for an absolute path. */
  function Normalize(p: Path): (r: Path)
    ensures IsParsed(p) ==> IsNormal(r)
    ensures IsNormal(p) ==> r == p
  {
    NormalizeFrom([], p)
  }

  /** `Path.startsWith(Path)`: `prefix` is a prefix element by element, so
      `p` is `prefix` followed by its remaining elements; a path starts
      with itself and with the root. */
  predicate StartsWith(p: Path, prefix: Path): (b: bool)
    ensures p == prefix || prefix == [] ==> b
  {
    |prefix| <= |p| && p[..|prefix|] == prefix
  }

  /** Normalization is idempotent on parsed paths. */
  lemma NormalizeIdempotent(p: Path)
    requires IsParsed(p)
    ensures Normalize(Normalize(p)) == Normalize(p)
  {
  }

  /** Normalizing a concatenation normalizes the second part onto the
      normalized first part. */
  lemma {:induction false} NormalizeFromAppend(acc: Path, a: Path, b: Path)
    ensures NormalizeFrom(acc, a + b) == NormalizeFrom(NormalizeFrom(acc, a), b)
    decreases |a|
  {
    if a != [] {
      assert (a + b)[0] == a[0];
      assert (a + b)[1..] == a[1..] + b;
      NormalizeFromAppend(Step(acc, a[0]), a[1..], b);
    } else {
      assert a + b == b;
    }
  }

  /** A name element is its own one-element path. */
  lemma ElementsOfName(x: string)
    requires IsElement(x)
    ensures Elements(x) == [x]
  {
    var n := ElementLength(x);
    assert n == |x|;
    assert x[..n] == x && x[n..] == [];
  }

  /** A leading element followed by a slash splits off. */
  lemma ElementsCons(x: string, y: string)
    requires IsElement(x)
    ensures Elements(x + "/" + y) == [x] + Elements(y)
  {
    var s := x + "/" + y;
    var n := ElementLength(s);
    assert s[|x|] == '/';
    assert forall k :: 0 <= k < |x| ==> s[k] == x[k];
    assert n == |x|;
    assert s[..n] == x;
    assert s[n..] == "/" + y;
    assert ("/" + y)[1..] == y;
  }

  /** `x/y` resolved against a normal base names `y` inside `x` inside
      the base. */
  lemma ResolveTwoNames(base: Path, x: string, y: string)
    requires IsNormal(base) && IsName(x) && IsName(y)
    ensures Resolve(base, x + "/" + y) == base + [x, y]
    ensures Normalize(Resolve(base, x + "/" + y)) == base + [x, y]
  {
    ElementsCons(x, y);
    ElementsOfName(y);
    assert IsNormal(base + [x, y]);
  }

  /** A relative name with no `..` element never leaves the base: its
      normalized resolution starts with the base. */
  lemma RelativeNameStaysInside(base: Path, name: string)
    requires IsNormal(base)
    requires !IsAbsolute(name)
    requires forall i :: 0 <= i < |Elements(name)| ==> Elements(name)[i] != ".."
    ensures StartsWith(Normalize(Resolve(base, name)), base)
  {
    NormalizeFromAppend([], base, Elements(name));
  }

  /** A leading `..` removes the last name of a non-root normal prefix. */
  lemma NormalizeParent(dir: Path, rest: Path)
    requires IsNormal(dir) && |dir| >= 1
    ensures NormalizeFrom(dir, [".."] + rest) == NormalizeFrom(dir[..|dir| - 1], rest)
  {
    assert ([".."] + rest)[0] == "..";
    assert ([".."] + rest)[1..] == rest;
  }

  /** A path below the parent of `dir` starts with `dir` exactly when its
      first element below the parent is the last element of `dir`. */
  lemma SiblingStartsWith(dir: Path, tail: Path)
    requires |dir| >= 1 && |tail| >= 1
    ensures StartsWith(dir[..|dir| - 1] + tail, dir) <==> tail[0] == dir[|dir| - 1]
  {
    var r := dir[..|dir| - 1] + tail;
    if tail[0] == dir[|dir| - 1] {
      assert r[..|dir|] == dir;
    } else {
      assert r[|dir| - 1] != dir[|dir| - 1];
    }
  }

  /** `../x/y` splits into its three elements. */
  lemma ElementsOfParentPath(x: string, y: string)
    requires IsName(x) && IsName(y)
    ensures Elements("../" + x + "/" + y) == [".."] + [x, y]
    ensures !IsAbsolute("../" + x + "/" + y)
  {
    var s := "../" + x + "/" + y;
    assert s == ".." + "/" + (x + "/" + y);
    assert IsElement("..");
    ElementsCons("..", x + "/" + y);
    ElementsCons(x, y);
    ElementsOfName(y);
    assert s[0] == '.';
  }

  /** `../x/y` resolved against a non-root base `dir` normalizes to `y`
      inside the sibling `x` of `dir`, which starts with `dir` only when `x`
      is the last element of `dir` itself. */
  lemma ParentThenTwoNames(dir: Path, x: string, y: string)
    requires IsNormal(dir) && |dir| >= 1
    requires IsName(x) && IsName(y)
    ensures Normalize(Resolve(dir, "../" + x + "/" + y)) == dir[..|dir| - 1] + [x, y]
    ensures StartsWith(Normalize(Resolve(dir, "../" + x + "/" + y)), dir) <==> x == dir[|dir| - 1]
  {
    var s := "../" + x + "/" + y;
    var parent := dir[..|dir| - 1];
    var r := parent + [x, y];
    ElementsOfParentPath(x, y);
    assert Resolve(dir, s) == dir + ([".."] + [x, y]);
    assert Normalize(Resolve(dir, s)) == r by {
      NormalizeFromAppend([], dir, [".."] + [x, y]);
      NormalizeParent(dir, [x, y]);
      assert IsNormal([x, y]);
    }
    SiblingStartsWith(dir, [x, y]);
  }

  /** `../x` splits into its two elements. */
  lemma ElementsOfParentName(x: string)
    requires IsName(x)
    ensures Elements("../" + x) == ["..", x]
    ensures !IsAbsolute("../" + x)
  {
    assert "../" + x == ".." + "/" + x;
    assert IsElement("..");
    ElementsCons("..", x);
    ElementsOfName(x);
  }

  /** `../x` resolved against a non-root base `dir` normalizes to the
      sibling `x` of `dir`, which starts with `dir` only when `x` is the
      last element of `dir` itself. */
  lemma ParentThenName(dir: Path, x: string)
    requires IsNormal(dir) && |dir| >= 1
    requires IsName(x)
    ensures Normalize(Resolve(dir, "../" + x)) == dir[..|dir| - 1] + [x]
    ensures StartsWith(Normalize(Resolve(dir, "../" + x)), dir) <==> x == dir[|dir| - 1]
  {
    var parent := dir[..|dir| - 1];
    var r := parent + [x];
    ElementsOfParentName(x);
    assert Resolve(dir, "../" + x) == dir + ([".."] + [x]);
    assert Normalize(Resolve(dir, "../" + x)) == r by {
      NormalizeFromAppend([], dir, [".."] + [x]);
      NormalizeParent(dir, [x]);
      assert IsNormal([x]);
    }
    SiblingStartsWith(dir, [x]);
  }
}
