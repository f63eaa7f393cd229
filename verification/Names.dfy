// The total order on names that the packer sorts by and the probe searches by
// (src/core/bindtab.c, name_cmp): byte by byte, the shorter name first when one
// is a prefix of the other.
module Names {
  type Byte = x: int | 0 <= x < 256
  type Name = seq<Byte>

  /** The sign of the comparison: the first differing byte decides. */
  function NameCompare(a: Name, b: Name): int {
    if a == [] || b == [] then
      if |a| < |b| then -1 else if |a| > |b| then 1 else 0
    else if a[0] != b[0] then
      if a[0] < b[0] then -1 else 1
    else
      NameCompare(a[1..], b[1..])
  }

  predicate Precedes(a: Name, b: Name) {
    NameCompare(a, b) < 0
  }

  predicate NotAfter(a: Name, b: Name) {
    NameCompare(a, b) <= 0
  }

  lemma {:induction false} CompareZero(a: Name, b: Name)
    ensures NameCompare(a, b) == 0 <==> a == b
  {
    if a != [] && b != [] && a[0] == b[0] {
      CompareZero(a[1..], b[1..]);
      assert a == [a[0]] + a[1..] && b == [b[0]] + b[1..];
    }
  }

  lemma {:induction false} CompareSwap(a: Name, b: Name)
    ensures NameCompare(b, a) == -NameCompare(a, b)
  {
    if a != [] && b != [] && a[0] == b[0] {
      CompareSwap(a[1..], b[1..]);
    }
  }

  lemma {:induction false} CompareTransitive(a: Name, b: Name, c: Name)
    requires NotAfter(a, b) && NotAfter(b, c)
    ensures NotAfter(a, c)
    ensures Precedes(a, b) || Precedes(b, c) ==> Precedes(a, c)
  {
    if a != [] && b != [] && c != [] && a[0] == b[0] && b[0] == c[0] {
      CompareTransitive(a[1..], b[1..], c[1..]);
    }
  }

  /** `a` comes first: the names agree up to place `k`, where `a` ends or has the smaller byte. */
  ghost predicate SmallerAt(a: Name, b: Name, k: nat) {
    k <= |a| && k < |b| && a[..k] == b[..k] && (k < |a| ==> a[k] < b[k])
  }

  /** The order is that of the bytes, and a prefix comes first. */
  lemma {:induction false} PrecedesExactly(a: Name, b: Name)
    ensures Precedes(a, b) <==> exists k: nat :: SmallerAt(a, b, k)
  {
    if a != [] && b != [] && a[0] == b[0] {
      PrecedesExactly(a[1..], b[1..]);
      if k: nat :| SmallerAt(a[1..], b[1..], k) {
        assert a[..k + 1] == [a[0]] + a[1..][..k] && b[..k + 1] == [b[0]] + b[1..][..k];
        assert SmallerAt(a, b, k + 1);
      }
      if k: nat :| SmallerAt(a, b, k) {
        assert k > 0;
        assert a[1..][..k - 1] == a[..k][1..] && b[1..][..k - 1] == b[..k][1..];
        assert SmallerAt(a[1..], b[1..], k - 1);
      }
    } else if Precedes(a, b) {
      assert SmallerAt(a, b, 0);
    }
  }

  predicate NamesSorted(names: seq<Name>) {
    forall i, j :: 0 <= i < j < |names| ==> NotAfter(names[i], names[j])
  }

  /** Neighbours in order make the whole list ordered. */
  lemma {:induction false} NeighboursSorted(names: seq<Name>)
    requires forall i :: 0 < i < |names| ==> NotAfter(names[i - 1], names[i])
    ensures NamesSorted(names)
  {
    forall i, j | 0 <= i < j < |names| ensures NotAfter(names[i], names[j]) {
      ChainSorted(names, i, j);
    }
  }

  lemma {:induction false} ChainSorted(names: seq<Name>, i: nat, j: nat)
    requires forall k :: 0 < k < |names| ==> NotAfter(names[k - 1], names[k])
    requires i < j < |names|
    ensures NotAfter(names[i], names[j])
    decreases j
  {
    assert NotAfter(names[j - 1], names[j]);
    if i < j - 1 {
      ChainSorted(names, i, j - 1);
      CompareTransitive(names[i], names[j - 1], names[j]);
    }
  }

  /** Equal names stand next to each other in an ordered list. */
  lemma EqualsAdjacent(names: seq<Name>, i: nat, k: nat, j: nat)
    requires NamesSorted(names)
    requires i <= k <= j < |names|
    requires names[i] == names[j]
    ensures names[k] == names[i]
  {
    if i < k < j {
      assert NotAfter(names[i], names[k]) && NotAfter(names[k], names[j]);
      CompareSwap(names[i], names[k]);
      CompareZero(names[i], names[k]);
    }
  }
}
