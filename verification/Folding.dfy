/**
 Check symbols: data followed by the fold of its elements under an operation that does not see
 their order but sees every one of them, as exclusive or does.
 */
module Folding {
  function Fold<T>(f: (T, T) -> T, unit: T, s: seq<T>): T {
    if s == [] then unit else f(Fold(f, unit, s[..|s| - 1]), s[|s| - 1])
  }

  /** The data and its check symbol. */
  function Coded<T>(f: (T, T) -> T, unit: T, s: seq<T>): (c: seq<T>)
    ensures |c| == |s| + 1
  {
    s + [Fold(f, unit, s)]
  }

  ghost predicate OrderFree<T(!new)>(f: (T, T) -> T) {
    forall x, y, z :: f(f(x, y), z) == f(f(x, z), y)
  }

  ghost predicate Cancels<T(!new)>(f: (T, T) -> T) {
    forall x, y, z :: f(x, y) == f(x, z) ==> y == z
  }

  lemma {:induction false} FoldReplaced<T(!new)>(f: (T, T) -> T, unit: T, s: seq<T>, i: nat, b: T)
    requires OrderFree(f) && i < |s|
    ensures f(Fold(f, unit, s[i := b]), s[i]) == f(Fold(f, unit, s), b)
  {
    var n := |s| - 1;
    var u := s[..n];
    if i == n {
      assert s[i := b][..n] == u;
    } else {
      assert s[i := b][..n] == u[i := b];
      FoldReplaced(f, unit, u, i, b);
    }
  }

  /** A single changed element changes the check symbol. */
  lemma FoldSeesEachElement<T(!new)>(f: (T, T) -> T, unit: T, a: seq<T>, b: seq<T>, k: nat)
    requires OrderFree(f) && Cancels(f)
    requires k < |a| == |b| && a[..k] == b[..k] && a[k] != b[k] && a[k + 1..] == b[k + 1..]
    ensures Fold(f, unit, a) != Fold(f, unit, b)
  {
    assert b == a[..k] + [b[k]] + a[k + 1..] == a[k := b[k]];
    FoldReplaced(f, unit, a, k, b[k]);
  }

  lemma {:induction false} FirstDifference<T(!new)>(a: seq<T>, b: seq<T>) returns (k: nat)
    requires |a| == |b| && a != b
    ensures k < |a| && a[..k] == b[..k] && a[k] != b[k]
  {
    var n := |a| - 1;
    if a[..n] != b[..n] {
      k := FirstDifference(a[..n], b[..n]);
      assert a[..k] == a[..n][..k] && b[..k] == b[..n][..k];
    } else {
      k := n;
      assert a == a[..n] + [a[n]] && b == b[..n] + [b[n]];
    }
  }

  /** Different data of one length differ in at least two places once they carry their check symbols. */
  lemma TwoApart<T(!new)>(f: (T, T) -> T, unit: T, a: seq<T>, b: seq<T>) returns (i: nat, j: nat)
    requires OrderFree(f) && Cancels(f) && |a| == |b| && a != b
    ensures i < j <= |a| && Coded(f, unit, a)[i] != Coded(f, unit, b)[i] && Coded(f, unit, a)[j] != Coded(f, unit, b)[j]
  {
    i := FirstDifference(a, b);
    var c, d := a[i + 1..], b[i + 1..];
    if c != d {
      var l := FirstDifference(c, d);
      j := i + 1 + l;
      assert a[j] == c[l] && b[j] == d[l];
    } else {
      j := |a|;
      FoldSeesEachElement(f, unit, a, b, i);
    }
  }

  function Exchanged<T>(s: seq<T>, i: nat, j: nat): (r: seq<T>)
    requires i < j < |s|
    ensures |r| == |s|
  {
    s[i := s[j]][j := s[i]]
  }

  /** The order of the elements does not matter. */
  lemma {:induction false} FoldOfExchanged<T(!new)>(f: (T, T) -> T, unit: T, s: seq<T>, i: nat, j: nat)
    requires OrderFree(f) && i < j < |s|
    ensures Fold(f, unit, Exchanged(s, i, j)) == Fold(f, unit, s)
  {
    var n, r := |s| - 1, Exchanged(s, i, j);
    var u := s[..n];
    if j < n {
      FoldOfExchanged(f, unit, u, i, j);
      assert r[..n] == Exchanged(u, i, j);
    } else {
      assert r[..n] == u[i := s[j]];
      FoldReplaced(f, unit, u, i, s[j]);
    }
  }
}
