/** Sequences as the C++ code uses std::vector: a scan for the first equal
    element, erasing one position, and the "no element twice" invariant the
    registries keep. */
module Lists {

  /** The position a front-to-back iterator scan stops at: the first `x`,
      or the end when there is none. */
  function IndexOf<T(==)>(s: seq<T>, x: T): (i: nat)
    ensures i <= |s|
    ensures i < |s| ==> s[i] == x
    ensures forall j :: 0 <= j < i ==> s[j] != x
    ensures i == |s| <==> x !in s
  {
    if s == [] then 0
    else if s[0] == x then 0
    else
      var i := 1 + IndexOf(s[1..], x);
      assert forall j :: 1 <= j < i ==> s[j] == s[1..][j - 1];
      i
  }

  /** `s` after std::vector::erase at position `i`. */
  function RemoveAt<T>(s: seq<T>, i: nat): seq<T>
    requires i < |s|
  {
    s[..i] + s[i + 1..]
  }

  predicate NoDuplicates<T(==)>(s: seq<T>) {
    forall i, j :: 0 <= i < j < |s| ==> s[i] != s[j]
  }

  /** Erasing a position shifts the later elements down by one and keeps the
      earlier ones where they were. */
  lemma RemoveAtIndex<T>(s: seq<T>, i: nat)
    requires i < |s|
    ensures |RemoveAt(s, i)| == |s| - 1
    ensures forall j :: 0 <= j < i ==> RemoveAt(s, i)[j] == s[j]
    ensures forall j :: i <= j < |s| - 1 ==> RemoveAt(s, i)[j] == s[j + 1]
  {
  }

  /** Erasing the element at `i` from a list without repeats takes away
      exactly that element: the rest keep their order and none repeats. */
  lemma RemoveAtDistinct<T>(s: seq<T>, i: nat)
    requires NoDuplicates(s) && i < |s|
    ensures NoDuplicates(RemoveAt(s, i))
    ensures forall x :: x in RemoveAt(s, i) <==> x in s && x != s[i]
    ensures multiset(RemoveAt(s, i)) + multiset{s[i]} == multiset(s)
  {
    var r := RemoveAt(s, i);
    RemoveAtIndex(s, i);
    forall a, b | 0 <= a < b < |r| ensures r[a] != r[b] {
      var a' := if a < i then a else a + 1;
      var b' := if b < i then b else b + 1;
      assert r[a] == s[a'] && r[b] == s[b'];
    }
    forall x ensures x in r <==> x in s && x != s[i] {
      if x in r {
        var j :| 0 <= j < |r| && r[j] == x;
        var j' := if j < i then j else j + 1;
        assert s[j'] == x && j' != i;
      }
      if x in s && x != s[i] {
        var j :| 0 <= j < |s| && s[j] == x;
        assert j != i;
        if j < i {
          assert r[j] == x;
        } else {
          assert r[j - 1] == x;
        }
      }
    }
    assert s == s[..i] + [s[i]] + s[i + 1..];
  }

  /** Appending an element that is not present keeps the list free of
      repeats. */
  lemma AppendDistinct<T>(s: seq<T>, x: T)
    requires NoDuplicates(s) && x !in s
    ensures NoDuplicates(s + [x])
  {
    forall a, b | 0 <= a < b < |s + [x]| ensures (s + [x])[a] != (s + [x])[b] {
      if b == |s| {
        assert (s + [x])[a] == s[a];
      } else {
        assert (s + [x])[a] == s[a] && (s + [x])[b] == s[b];
      }
    }
  }
}
