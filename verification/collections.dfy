/** Facts about sequences shared by the image store and the image-list
    reconciliation. */
module Collections {

  /** No element occurs twice. */
  predicate NoDuplicates<T(==)>(s: seq<T>) {
    forall i, j :: 0 <= i < j < |s| ==> s[i] != s[j]
  }

  /** Dropping the head keeps a duplicate-free sequence duplicate-free, and
      the head does not occur again. */
  lemma NoDuplicatesTail<T>(s: seq<T>)
    requires NoDuplicates(s) && |s| >= 1
    ensures NoDuplicates(s[1..]) && s[0] !in s[1..]
  {
  }
}
