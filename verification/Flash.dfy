/**
 Writing to the SPI flash, as `spi_flash_write` of `SPIFLashDrv_wrapper.c` does: a write that
 reaches beyond the chip or touches a protected region is refused as a whole.  Addresses are
 32-bit, and so is the sum the checks compare.
 */
module Flash {
  import opened Bytes

  type dword = x: int | 0 <= x < 0x1_0000_0000

  /** Protected from `lo` up to `hi`. */
  datatype Region = Region(lo: dword, hi: dword)

  /** The regions of the shipped configuration. */
  const PROTECTED: seq<Region> := [Region(0x0, 0x1000), Region(0x4000, 0x1_C000)]

  function Sum32(a: int, b: int): dword {
    (a + b) % 0x1_0000_0000
  }

  /** The write from `at` up to `end` stays clear of the region. */
  predicate ClearOf(r: Region, at: dword, end: dword) {
    end <= r.lo || at >= r.hi
  }

  predicate Accepts(size: nat, protect: seq<Region>, at: dword, len: nat) {
    Sum32(at, len) <= size && forall i :: 0 <= i < |protect| ==> ClearOf(protect[i], at, Sum32(at, len))
  }

  /** `cells` with `data` written at address `at`. */
  function Written(cells: seq<byte>, at: nat, data: seq<byte>): (r: seq<byte>)
    requires at + |data| <= |cells|
    ensures |r| == |cells|
  {
    cells[..at] + data + cells[at + |data|..]
  }

  /** The chip after a write, accepted or not; there are no cells beyond its size. */
  function Stored(cells: seq<byte>, protect: seq<Region>, at: dword, data: seq<byte>): (r: seq<byte>)
    ensures |r| == |cells|
  {
    if Accepts(|cells|, protect, at, |data|) && at + |data| <= |cells| then Written(cells, at, data) else cells
  }

  class Chip {
    var cells: seq<byte>
    const protect: seq<Region>

    constructor (cells: seq<byte>, protect: seq<Region>)
      ensures this.cells == cells && this.protect == protect
    {
      this.cells := cells;
      this.protect := protect;
    }

    method Write(at: dword, data: seq<byte>) returns (ok: bool)
      modifies this
      ensures ok == Accepts(|cells|, protect, at, |data|)
      ensures cells == Stored(old(cells), protect, at, data)
    {
      var end := Sum32(at, |data|);
      if end > |cells| {
        return false;
      }
      var i := 0;
      while i < |protect|
        invariant 0 <= i <= |protect| && forall k :: 0 <= k < i ==> ClearOf(protect[k], at, end)
      {
        if end > protect[i].lo && at < protect[i].hi {
          assert !ClearOf(protect[i], at, end);
          return false;
        }
        i := i + 1;
      }
      if at + |data| <= |cells| {
        cells := cells[..at] + data + cells[at + |data|..];
      }
      return true;
    }
  }

  // ---------------------------------------------------------------------------
  // Writing parts one behind the other
  // ---------------------------------------------------------------------------

  function Join(parts: seq<seq<byte>>): seq<byte> {
    if parts == [] then [] else parts[0] + Join(parts[1..])
  }

  lemma {:induction false} JoinAppends(a: seq<seq<byte>>, b: seq<seq<byte>>)
    ensures Join(a + b) == Join(a) + Join(b)
  {
    if a == [] {
      assert a + b == b;
    } else {
      assert (a + b)[1..] == a[1..] + b;
      JoinAppends(a[1..], b);
    }
  }

  /** The chip after the parts have been written from `at` on, each behind the one before, refused or not. */
  function Loaded(cells: seq<byte>, protect: seq<Region>, at: dword, parts: seq<seq<byte>>): (r: seq<byte>)
    ensures |r| == |cells|
    decreases |parts|
  {
    if parts == [] then cells
    else Loaded(Stored(cells, protect, at, parts[0]), protect, Sum32(at, |parts[0]|), parts[1..])
  }

  lemma SumAgain(at: int, a: nat, b: nat)
    ensures Sum32(Sum32(at, a), b) == Sum32(at, a + b)
  {
  }

  lemma {:induction false} LoadedExtends(
      cells: seq<byte>, protect: seq<Region>, at: dword, parts: seq<seq<byte>>, last: seq<byte>)
    ensures Loaded(cells, protect, at, parts + [last])
      == Stored(Loaded(cells, protect, at, parts), protect, Sum32(at, |Join(parts)|), last)
    ensures Sum32(at, |Join(parts + [last])|) == Sum32(Sum32(at, |Join(parts)|), |last|)
    decreases |parts|
  {
    hide Stored, Sum32;
    JoinAppends(parts, [last]);
    assert Join([last]) == last + Join([]) == last;
    SumAgain(at, |Join(parts)|, |last|);
    if parts == [] {
      assert (parts + [last])[1..] == [];
      AtZero(at);
    } else {
      assert (parts + [last])[1..] == parts[1..] + [last];
      SumAgain(at, |parts[0]|, |Join(parts[1..])|);
      LoadedExtends(Stored(cells, protect, at, parts[0]), protect, Sum32(at, |parts[0]|), parts[1..], last);
    }
  }

  lemma AtZero(at: dword)
    ensures Sum32(at, 0) == at
  {
  }

  /** The part that covers address `j` is accepted. */
  predicate Covered(size: nat, protect: seq<Region>, at: nat, parts: seq<seq<byte>>, j: nat): (c: bool)
    requires at + |Join(parts)| < 0x1_0000_0000
    ensures c ==> at <= j < at + |Join(parts)|
    decreases |parts|
  {
    if parts == [] then false
    else if j < at + |parts[0]| then at <= j && Accepts(size, protect, at, |parts[0]|)
    else Covered(size, protect, at + |parts[0]|, parts[1..], j)
  }

  lemma StoredAt(cells: seq<byte>, protect: seq<Region>, at: dword, data: seq<byte>, j: nat)
    requires at + |data| < 0x1_0000_0000 && j < |cells|
    ensures Sum32(at, |data|) == at + |data|
    ensures Stored(cells, protect, at, data)[j]
      == if at <= j < at + |data| && Accepts(|cells|, protect, at, |data|) then data[j - at] else cells[j]
  {
  }

  /** Address by address: what the accepted parts hold, and what was there before everywhere else. */
  lemma {:induction false} LoadedAt(cells: seq<byte>, protect: seq<Region>, at: dword, parts: seq<seq<byte>>, j: nat)
    requires at + |Join(parts)| < 0x1_0000_0000 && j < |cells|
    ensures Loaded(cells, protect, at, parts)[j]
      == if Covered(|cells|, protect, at, parts, j) then Join(parts)[j - at] else cells[j]
    decreases |parts|
  {
    hide Stored, Accepts, Sum32;
    if parts != [] {
      StoredAt(cells, protect, at, parts[0], j);
      var next := at + |parts[0]|;
      LoadedAt(Stored(cells, protect, at, parts[0]), protect, next, parts[1..], j);
      assert j < next ==> !Covered(|cells|, protect, next, parts[1..], j);
    }
  }

  predicate Protects(protect: seq<Region>, j: nat) {
    exists i :: 0 <= i < |protect| && protect[i].lo <= j < protect[i].hi
  }

  /** A write within the 32-bit addresses is accepted iff it ends within the chip and none of its cells is protected. */
  lemma AcceptedExactlyWhen(size: nat, protect: seq<Region>, at: dword, len: nat)
    requires len > 0 && at + len < 0x1_0000_0000 && forall i :: 0 <= i < |protect| ==> protect[i].lo < protect[i].hi
    ensures Accepts(size, protect, at, len) <==>
      at + len <= size && forall j :: at <= j < at + len ==> !Protects(protect, j)
  {
    assert Sum32(at, len) == at + len;
    if !forall i :: 0 <= i < |protect| ==> ClearOf(protect[i], at, at + len) {
      var i :| 0 <= i < |protect| && !ClearOf(protect[i], at, at + len);
      var j := if at >= protect[i].lo then at else protect[i].lo;
      assert at <= j < at + len && Protects(protect, j);
    }
  }
}
