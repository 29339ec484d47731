/** Three-way comparison of keys, as the trees of the header expect it from their users. */
module Ordering {

  ghost predicate Lawful<K>(cmp: (K, K) -> int, a: K, b: K, c: K) {
    && (cmp(a, b) < 0 <==> cmp(b, a) > 0)
    && (cmp(a, b) <= 0 && cmp(b, c) <= 0 ==> cmp(a, c) <= 0)
  }

  /** `cmp` orders all keys: its sign is antisymmetric and "not above" is transitive. Keys that
      compare equal need not be equal. */
  ghost predicate IsOrder<K(!new)>(cmp: (K, K) -> int) {
    forall a, b, c :: Lawful(cmp, a, b, c)
  }

  lemma Transitive<K(!new)>(cmp: (K, K) -> int, a: K, b: K, c: K)
    requires IsOrder(cmp) && cmp(a, b) <= 0 && cmp(b, c) <= 0
    ensures cmp(a, c) <= 0 && (cmp(a, b) < 0 || cmp(b, c) < 0 ==> cmp(a, c) < 0)
  {
    assert Lawful(cmp, a, b, c) && Lawful(cmp, b, a, c);
    assert Lawful(cmp, b, c, a) && Lawful(cmp, c, b, a);
    assert Lawful(cmp, c, a, b) && Lawful(cmp, a, c, b);
  }

  lemma Antisymmetric<K(!new)>(cmp: (K, K) -> int, a: K, b: K)
    requires IsOrder(cmp)
    ensures cmp(a, b) < 0 <==> cmp(b, a) > 0
    ensures cmp(a, b) == 0 <==> cmp(b, a) == 0
  {
    assert Lawful(cmp, a, b, a) && Lawful(cmp, b, a, b);
  }

  // ------------------------------------------------------------------ sequences of keys

  ghost predicate Ascending<K>(cmp: (K, K) -> int, s: seq<K>) {
    forall i, j :: 0 <= i < j < |s| ==> cmp(s[i], s[j]) < 0
  }

  ghost predicate AllBelow<K>(cmp: (K, K) -> int, s: seq<K>, k: K) {
    forall i :: 0 <= i < |s| ==> cmp(s[i], k) < 0
  }

  ghost predicate AllAbove<K>(cmp: (K, K) -> int, s: seq<K>, k: K) {
    forall i :: 0 <= i < |s| ==> cmp(k, s[i]) < 0
  }

  ghost predicate Lacks<K>(cmp: (K, K) -> int, s: seq<K>, k: K) {
    forall i :: 0 <= i < |s| ==> cmp(k, s[i]) != 0
  }

  lemma Parts<K>(cmp: (K, K) -> int, a: seq<K>, b: seq<K>)
    requires Ascending(cmp, a + b)
    ensures Ascending(cmp, a) && Ascending(cmp, b)
    ensures forall i, j :: 0 <= i < |a| && 0 <= j < |b| ==> cmp(a[i], b[j]) < 0
  {
    forall i, j | 0 <= i < j < |a| ensures cmp(a[i], a[j]) < 0 {
      assert (a + b)[i] == a[i] && (a + b)[j] == a[j];
    }
    forall i, j | 0 <= i < j < |b| ensures cmp(b[i], b[j]) < 0 {
      assert (a + b)[|a| + i] == b[i] && (a + b)[|a| + j] == b[j];
    }
    forall i, j | 0 <= i < |a| && 0 <= j < |b| ensures cmp(a[i], b[j]) < 0 {
      assert (a + b)[i] == a[i] && (a + b)[|a| + j] == b[j];
    }
  }

  /** What lies beyond a key on the far side of `k` lies on the far side of `k` too. */
  lemma Beyond<K(!new)>(cmp: (K, K) -> int, a: seq<K>, x: K, b: seq<K>, k: K)
    requires IsOrder(cmp) && Ascending(cmp, a + [x] + b)
    ensures cmp(k, x) <= 0 ==> AllAbove(cmp, b, k)
    ensures cmp(k, x) < 0 ==> AllAbove(cmp, [x] + b, k)
    ensures cmp(k, x) >= 0 ==> AllBelow(cmp, a, k)
    ensures cmp(k, x) > 0 ==> AllBelow(cmp, a + [x], k)
  {
    Parts(cmp, a + [x], b);
    Parts(cmp, a, [x]);
    assert (a + [x])[|a|] == x && [x][0] == x;
    if cmp(k, x) <= 0 {
      forall j | 0 <= j < |b| ensures cmp(k, b[j]) < 0 { Transitive(cmp, k, x, b[j]); }
    }
    if cmp(k, x) >= 0 {
      Antisymmetric(cmp, k, x);
      forall i | 0 <= i < |a| ensures cmp(a[i], k) < 0 { Transitive(cmp, a[i], x, k); }
    }
  }

  /** A key between the two halves of an ascending sequence can be put between them. */
  lemma Between<K>(cmp: (K, K) -> int, a: seq<K>, k: K, b: seq<K>)
    requires Ascending(cmp, a + b) && AllBelow(cmp, a, k) && AllAbove(cmp, b, k)
    ensures Ascending(cmp, a + [k] + b)
  {
    Parts(cmp, a, b);
  }

  lemma Without<K>(cmp: (K, K) -> int, a: seq<K>, k: K, b: seq<K>)
    requires Ascending(cmp, a + [k] + b)
    ensures Ascending(cmp, a + b)
  {
    Parts(cmp, a + [k], b);
    Parts(cmp, a, [k]);
    forall i, j | 0 <= i < |a| && 0 <= j < |b| ensures cmp(a[i], b[j]) < 0 {
      assert (a + [k])[i] == a[i];
    }
  }

  lemma LacksAround<K(!new)>(cmp: (K, K) -> int, a: seq<K>, b: seq<K>, k: K)
    requires IsOrder(cmp) && AllBelow(cmp, a, k) && AllAbove(cmp, b, k)
    ensures Lacks(cmp, a + b, k)
    ensures forall x :: cmp(k, x) != 0 ==> Lacks(cmp, a + [x] + b, k)
  {
    forall i | 0 <= i < |a| ensures cmp(k, a[i]) != 0 { Antisymmetric(cmp, a[i], k); }
    assert forall i :: 0 <= i < |b| ==> cmp(k, b[i]) != 0;
  }

  /** Where a key is in a sequence, nothing else compares equal to it, and it is not lacking. */
  lemma OnlyOne<K(!new)>(cmp: (K, K) -> int, s: seq<K>, i: nat)
    requires IsOrder(cmp) && Ascending(cmp, s) && i < |s|
    ensures !Lacks(cmp, s, s[i]) && forall j :: 0 <= j < |s| && cmp(s[i], s[j]) == 0 ==> j == i
  {
    Antisymmetric(cmp, s[i], s[i]);
    forall j | 0 <= j < |s| && cmp(s[i], s[j]) == 0 ensures j == i {
      Antisymmetric(cmp, s[i], s[j]);
    }
  }
}
