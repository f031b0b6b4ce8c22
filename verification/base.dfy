/** Small shared vocabulary: an optional value (a nullable reference in the
    original), 3-vectors, and first/last occurrence in a sequence. */
module Base {

  /** A reference that may be null. */
  datatype Option<+T> = None | Some(value: T)

  /** A position or scale; floating point is modelled by `real`. */
  datatype Vec3 = Vec3(x: real, y: real, z: real)

  /** The integers lo, lo+1, ..., lo+n-1. */
  function Range(lo: int, n: nat): (r: seq<int>)
    ensures |r| == n
    ensures forall k :: 0 <= k < n ==> r[k] == lo + k
  {
    seq(n, k requires 0 <= k < n => lo + k)
  }

  /** Position of the first occurrence of `x` in `s`. */
  function IndexOf<T(==)>(s: seq<T>, x: T): (k: nat)
    requires x in s
    ensures k < |s| && s[k] == x
    ensures forall j :: 0 <= j < k ==> s[j] != x
  {
    if s[0] == x then 0 else 1 + IndexOf(s[1..], x)
  }

  /** Position of the last occurrence of `x` in `s`. */
  function LastIndexOf<T(==)>(s: seq<T>, x: T): (k: nat)
    requires x in s
    ensures k < |s| && s[k] == x
    ensures forall j :: k < j < |s| ==> s[j] != x
  {
    if s[|s| - 1] == x then |s| - 1 else LastIndexOf(s[..|s| - 1], x)
  }

  /** No element occurs twice. */
  predicate NoDuplicates<T(==)>(s: seq<T>) {
    forall i, j :: 0 <= i < j < |s| ==> s[i] != s[j]
  }

  lemma IndexOfConcat<T>(a: seq<T>, b: seq<T>, x: T)
    requires x in a + b
    ensures x in a ==> IndexOf(a + b, x) == IndexOf(a, x)
    ensures x !in a ==> x in b && IndexOf(a + b, x) == |a| + IndexOf(b, x)
  {
    var k := IndexOf(a + b, x);
    if x in a {
      var i := IndexOf(a, x);
      assert (a + b)[i] == x;
    } else {
      assert forall j :: 0 <= j < |a| ==> (a + b)[j] == a[j];
      assert k >= |a|;
      assert b[k - |a|] == x;
      var i := IndexOf(b, x);
      assert (a + b)[|a| + i] == x;
    }
  }

  lemma LastIndexOfConcat<T>(a: seq<T>, b: seq<T>, x: T)
    requires x in a + b
    ensures x in b ==> LastIndexOf(a + b, x) == |a| + LastIndexOf(b, x)
    ensures x !in b ==> x in a && LastIndexOf(a + b, x) == LastIndexOf(a, x)
  {
    var k := LastIndexOf(a + b, x);
    if x in b {
      var i := LastIndexOf(b, x);
      assert (a + b)[|a| + i] == x;
    } else {
      assert forall j :: 0 <= j < |b| ==> (a + b)[|a| + j] == b[j];
      assert k < |a|;
      assert a[k] == x;
      var i := LastIndexOf(a, x);
      assert (a + b)[i] == x;
    }
  }

  /** Without duplicates the first and the last occurrence coincide. */
  lemma FirstIsLastWithoutDuplicates<T>(s: seq<T>, x: T)
    requires x in s && NoDuplicates(s)
    ensures IndexOf(s, x) == LastIndexOf(s, x)
  {
    var i := IndexOf(s, x);
    var j := LastIndexOf(s, x);
    assert s[i] == s[j];
  }

  /** Walking a list of triples three at a time: a position short of the end
      leaves a whole triple. */
  lemma NextTriple(i: int, n: int)
    requires 0 <= i < n && i % 3 == 0 && n % 3 == 0
    ensures i + 3 <= n && (i + 3) % 3 == 0
  {
  }

  /** One more triple keeps a list of triples whole. */
  lemma AddTriple(k: int)
    requires k % 3 == 0
    ensures (k + 3) % 3 == 0
  {
  }

  /** Two lists of pairs together are a list of pairs. */
  lemma EvenSum(a: nat, b: nat)
    requires a % 2 == 0 && b % 2 == 0
    ensures (a + b) % 2 == 0
  {
  }

  /** A non-empty list of pairs holds at least one pair. */
  lemma EvenLength(k: nat)
    requires k % 2 == 0
    ensures k == 0 || k >= 2
  {
  }
}
