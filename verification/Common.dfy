/** Definitions that several parts of the kernel share. */
module Common {
  const PAGE_SIZE := 4096

  datatype Option<T> = None | Some(value: T)

  predicate Distinct<T(==)>(s: seq<T>) {
    forall i, j | 0 <= i < j < |s| :: s[i] != s[j]
  }

  /** The elements of a list without duplicates. */
  ghost function Elements(s: seq<nat>): (e: set<nat>)
    requires Distinct(s)
    ensures (forall x :: x in e <==> x in s) && |e| == |s|
  {
    if s == [] then {} else
      var t := s[..|s| - 1];
      assert s == t + [s[|s| - 1]];
      assert s[|s| - 1] !in Elements(t);
      Elements(t) + {s[|s| - 1]}
  }

  lemma ElementsAre(s: seq<nat>, e: set<nat>)
    requires Distinct(s) && forall x :: x in e <==> x in s
    ensures |s| == |e|
  {
    assert Elements(s) == e;
  }
}
