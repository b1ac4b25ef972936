/**
 Overlapping moves within a buffer, element by element and in place, and what they leave there.
 */
module Moves {
  /** `m` with the elements `from..to` moved down by `gap`, first one first. */
  ghost function MovedDown<T>(m: seq<T>, from: nat, to: nat, gap: nat): (r: seq<T>)
    requires gap <= from <= to <= |m|
    ensures |r| == |m|
  {
    if from == to then m else MovedDown(m, from, to - 1, gap)[to - 1 - gap := m[to - 1]]
  }

  /** `m` with the elements `from..to` moved up by `gap`, last one first. */
  ghost function MovedUp<T>(m: seq<T>, from: nat, to: nat, gap: nat): (r: seq<T>)
    requires from <= to && to + gap <= |m|
    ensures |r| == |m|
    decreases |m| - from
  {
    if from == to then m else MovedUp(m, from + 1, to, gap)[from + gap := m[from]]
  }

  lemma {:induction false} MovedDownAt<T>(m: seq<T>, from: nat, to: nat, gap: nat, k: nat)
    requires gap <= from <= to <= |m| && k < |m|
    ensures MovedDown(m, from, to, gap)[k] == if from - gap <= k < to - gap then m[k + gap] else m[k]
  {
    if from < to {
      MovedDownAt(m, from, to - 1, gap, k);
    }
  }

  lemma {:induction false} MovedUpAt<T>(m: seq<T>, from: nat, to: nat, gap: nat, k: nat)
    requires from <= to && to + gap <= |m| && k < |m|
    ensures MovedUp(m, from, to, gap)[k] == if from + gap <= k < to + gap then m[k - gap] else m[k]
    decreases |m| - from
  {
    if from < to {
      MovedUpAt(m, from + 1, to, gap, k);
    }
  }

  /** Nothing is lost: the moved elements arrive whole although source and target overlap. */
  lemma MovedDownMeans<T>(m: seq<T>, from: nat, to: nat, gap: nat)
    requires gap <= from <= to <= |m|
    ensures MovedDown(m, from, to, gap) == m[..from - gap] + m[from..to] + m[to - gap..]
  {
    var r, t := MovedDown(m, from, to, gap), m[..from - gap] + m[from..to] + m[to - gap..];
    forall k | 0 <= k < |m| ensures r[k] == t[k] {
      MovedDownAt(m, from, to, gap, k);
    }
  }

  lemma MovedUpMeans<T>(m: seq<T>, from: nat, to: nat, gap: nat)
    requires from <= to && to + gap <= |m|
    ensures MovedUp(m, from, to, gap) == m[..from + gap] + m[from..to] + m[to + gap..]
  {
    var r, t := MovedUp(m, from, to, gap), m[..from + gap] + m[from..to] + m[to + gap..];
    forall k | 0 <= k < |m| ensures r[k] == t[k] {
      MovedUpAt(m, from, to, gap, k);
    }
  }

  /** The element to be moved next has not been overwritten. */
  lemma NextIsThereDown<T>(m: seq<T>, from: nat, to: nat, gap: nat)
    requires 0 < gap <= from <= to < |m|
    ensures MovedDown(m, from, to, gap)[to] == m[to]
  {
    MovedDownAt(m, from, to, gap, to);
  }

  lemma NextIsThereUp<T>(m: seq<T>, from: nat, to: nat, gap: nat)
    requires 0 < from <= to && gap > 0 && to + gap <= |m|
    ensures MovedUp(m, from, to, gap)[from - 1] == m[from - 1]
  {
    MovedUpAt(m, from, to, gap, from - 1);
  }

  method MoveDown<T>(mem: array<T>, from: nat, to: nat, gap: nat)
    requires 0 < gap <= from <= to <= mem.Length
    modifies mem
    ensures mem[..] == MovedDown(old(mem[..]), from, to, gap)
  {
    ghost var m := mem[..];
    for i := from to to
      invariant mem[..] == MovedDown(m, from, i, gap)
    {
      NextIsThereDown(m, from, i, gap);
      assert mem[i] == mem[..][i];
      mem[i - gap] := mem[i];
    }
  }

  method MoveUp<T>(mem: array<T>, from: nat, to: nat, gap: nat)
    requires from <= to && gap > 0 && to + gap <= mem.Length
    modifies mem
    ensures mem[..] == MovedUp(old(mem[..]), from, to, gap)
  {
    ghost var m := mem[..];
    var i := to;
    while i > from
      invariant from <= i <= to
      invariant mem[..] == MovedUp(m, i, to, gap)
    {
      NextIsThereUp(m, i, to, gap);
      i := i - 1;
      assert mem[i] == mem[..][i];
      mem[i + gap] := mem[i];
    }
  }

  // ---------------------------------------------------------------------------
  // In parts
  // ---------------------------------------------------------------------------

  lemma CutFour<T>(a: seq<T>, b: seq<T>, c: seq<T>, z: seq<T>)
    ensures var m := a + b + c + z;
      m[..|a|] == a && m[|a + b|..|a + b + c|] == c && m[|a + b + c|..] == z
  {
  }

  lemma CutTail<T>(a: seq<T>, b: seq<T>, z: seq<T>, k: nat)
    requires |a| <= k <= |a + b|
    ensures (a + b + z)[k..] == b[k - |a|..] + z
  {
  }

  /** Moving the part `s` down over the gap `g` before it. */
  lemma PartMovedDown<T>(a: seq<T>, g: seq<T>, s: seq<T>, z: seq<T>)
    ensures MovedDown(a + g + s + z, |a + g|, |a + g + s|, |g|) == a + s + (g + s)[|s|..] + z
  {
    var m := a + g + s + z;
    MovedDownMeans(m, |a + g|, |a + g + s|, |g|);
    CutFour(a, g, s, z);
    assert m == a + (g + s) + z;
    CutTail(a, g + s, z, |a| + |s|);
    assert a + s + ((g + s)[|s|..] + z) == a + s + (g + s)[|s|..] + z;
  }

  /** Moving the first `k` elements of `lo..hi` up over the `gap` behind them closes the gap. */
  lemma GapClosed<T>(m: seq<T>, lo: nat, k: nat, gap: nat, hi: nat)
    requires lo + k + gap <= hi <= |m|
    ensures var f := m[lo..hi];
      MovedUp(m, lo, lo + k, gap)[lo + gap..hi] == f[..k] + f[k + gap..]
  {
    MovedUpMeans(m, lo, lo + k, gap);
    TakeBehind(m[..lo + gap], m[lo..lo + k], m[lo + k + gap..], hi - (lo + k + gap));
    SliceOfSlice(m, lo, hi, 0, k);
    SliceOfSlice(m, lo, hi, k + gap, hi - lo);
  }

  lemma TakeBehind<T>(a: seq<T>, b: seq<T>, z: seq<T>, n: nat)
    requires n <= |z|
    ensures (a + b + z)[|a|..|a| + |b| + n] == b + z[..n]
  {
  }

  lemma Cut<T>(m: seq<T>, i: nat, j: nat, k: nat, l: nat)
    returns (a: seq<T>, g: seq<T>, s: seq<T>, t: seq<T>, z: seq<T>)
    requires i <= j <= k <= l <= |m|
    ensures m == a + g + s + t + z
    ensures a == m[..i] && |g| == j - i && |s| == k - j && |t| == l - k && z == m[l..]
    ensures s + t == m[j..l] && g + s + t == m[i..l]
  {
    a, g, s, t, z := m[..i], m[i..j], m[j..k], m[k..l], m[l..];
  }

  lemma LastOf<T>(m: seq<T>, i: nat, l: nat, p: nat)
    requires i + p <= l <= |m|
    ensures m[i..l][l - i - p..] == m[l - p..l]
  {
    SliceOfSlice(m, i, l, l - i - p, l - i);
  }

  /** A sequence of four parts, the middle two together. */
  lemma MiddleParts<T>(a: seq<T>, b: seq<T>, c: seq<T>, z: seq<T>)
    ensures var r := a + b + c + z;
      r[..|a|] == a && r[|a|..|a| + |b| + |c|] == b + c && r[|a| + |b| + |c|..] == z
  {
    assert a + b + c + z == a + (b + c) + z;
    CutMiddle(a, b + c, z);
  }

  lemma CutMiddle<T>(a: seq<T>, b: seq<T>, z: seq<T>)
    ensures (a + b + z)[|a|..|a| + |b|] == b
    ensures (a + b + z)[..|a|] == a && (a + b + z)[|a| + |b|..] == z
  {
  }

  lemma SliceOfSlice<T>(m: seq<T>, i: nat, j: nat, k: nat, l: nat)
    requires i <= j <= |m| && k <= l <= j - i
    ensures m[i..j][k..l] == m[i + k..i + l]
  {
    var s := m[i..j];
    assert forall x :: k <= x < l ==> s[x] == m[i + x];
  }

  lemma Regrouped<T>(a: seq<T>, b: seq<T>, c: seq<T>, d: seq<T>, e: seq<T>, z: seq<T>)
    ensures a + b + c + d + e + z == (a + b) + c + (d + e + z) == a + (b + c + d) + e + z
  {
  }

  /**
   Moving the part `s` down by `k + p`, and then the part `t` behind it by `p`, opens a gap of `k`
   between them; behind `t` the last `p` elements stay as they were.
   */
  lemma GapOpened<T>(a: seq<T>, g: seq<T>, s: seq<T>, t: seq<T>, z: seq<T>, k: nat, p: nat) returns (x: seq<T>)
    requires |g| == k + p
    ensures |x| == k
    ensures var n := MovedDown(a + g + s + t + z, |a + g|, |a + g + s|, k + p);
      MovedDown(n, |a + g + s|, |a + g + s + t|, p) == a + s + x + t + (g + s + t)[|s + t| + k..] + z
  {
    var y := (g + s)[|s|..];
    x := y[..k];
    assert a + g + s + t + z == a + g + s + (t + z);
    PartMovedDown(a, g, s, t + z);
    assert a + s + y + (t + z) == (a + s + x) + y[k..] + t + z;
    PartMovedDown(a + s + x, y[k..], t, z);
    assert (y[k..] + t)[|t|..] == (g + s + t)[|s + t| + k..];
  }
}
