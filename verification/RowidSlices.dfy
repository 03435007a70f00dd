/** Cutting the ROWID space of a set of segments into work units. */
module RowidSlices {
  import opened Machine
  import opened Rowid

  const LAST_OBJECT: nat := 0xFFFF_FFFF

  datatype Extent = Extent(obj: uint32, fno: uint32, block: uint32, blocks: uint32)

  datatype Slice = Slice(lo: string, hi: string, inclusive: bool)

  datatype Unit = Unit(slice: Slice, blocks: nat)

  /** A row of a table: the fields of its ROWID, in the ranges that Oracle uses. */
  datatype Address = Address(obj: uint32, file: nat, block: nat, row: nat) {
    predicate Valid() {
      file <= 1023 && block <= 0x3FFFFF && row <= 0xFFFF
    }

    function Pos(): nat {
      Position(RowidText(obj, file, block, row))
    }
  }

  predicate Contains(slice: Slice, pos: nat) {
    Position(slice.lo) <= pos && if slice.inclusive then pos <= Position(slice.hi) else pos < Position(slice.hi)
  }

  /** How many slices hold the row at a position. */
  function Readers(slices: seq<Slice>, pos: nat): nat {
    if slices == [] then 0
    else Readers(slices[..|slices| - 1], pos) + if Contains(slices[|slices| - 1], pos) then 1 else 0
  }

  function UnitReaders(units: seq<Unit>, pos: nat): nat {
    if units == [] then 0
    else UnitReaders(units[..|units| - 1], pos) + if Contains(units[|units| - 1].slice, pos) then 1 else 0
  }

  /** Extents as the dictionary lists them: no block twice, each object in one bigfile or in smallfiles. */
  ghost predicate Separate(m: multiset<Extent>) {
    && (forall a <- m :: a.fno <= 1024 && a.block + a.blocks <= TWO32)
    && (forall a <- m :: a.blocks > 0 ==> m[a] == 1)
    && (forall a <- m, b <- m :: a != b ==> Apart(a, b))
  }

  predicate Apart(a: Extent, b: Extent) {
    a.obj == b.obj ==>
      && (a.fno == 1024 <==> b.fno == 1024)
      && (a.fno == b.fno ==> a.block + a.blocks <= b.block || b.block + b.blocks <= a.block)
  }

  predicate NotAfter(a: Extent, b: Extent) {
    a.fno < b.fno || (a.fno == b.fno && a.block <= b.block)
  }

  ghost predicate Sorted(s: seq<Extent>) {
    forall i, j :: 0 <= i < j < |s| ==> NotAfter(s[i], s[j])
  }

  function InsertExtent(s: seq<Extent>, e: Extent): (r: seq<Extent>)
    ensures multiset(r) == multiset(s) + multiset{e}
  {
    if s == [] || NotAfter(s[|s| - 1], e) then s + [e] else
    assert s == s[..|s| - 1] + [s[|s| - 1]];
    InsertExtent(s[..|s| - 1], e) + [s[|s| - 1]]
  }

  lemma {:induction false} InsertSorted(s: seq<Extent>, e: Extent)
    requires Sorted(s)
    ensures Sorted(InsertExtent(s, e))
  {
    hide NotAfter;
    NotAfterTransitive();
    if s != [] && !NotAfter(s[|s| - 1], e) {
      var t, last := s[..|s| - 1], s[|s| - 1];
      InsertSorted(t, e);
      forall x <- InsertExtent(t, e)
        ensures NotAfter(x, last)
      {
        assert x in multiset(InsertExtent(t, e));
        assert x in multiset(t) || x == e;
      }
    }
  }

  lemma NotAfterTransitive()
    ensures forall a, b, c :: NotAfter(a, b) && NotAfter(b, c) ==> NotAfter(a, c)
    ensures forall a, b :: NotAfter(a, b) || NotAfter(b, a)
  {}

  function SortExtents(s: seq<Extent>): (r: seq<Extent>)
    ensures multiset(r) == multiset(s)
  {
    if s == [] then [] else
    assert s == s[..|s| - 1] + [s[|s| - 1]];
    InsertExtent(SortExtents(s[..|s| - 1]), s[|s| - 1])
  }

  lemma {:induction false} SortExtentsSorted(s: seq<Extent>)
    ensures Sorted(SortExtents(s))
  {
    hide NotAfter;
    if s != [] {
      SortExtentsSorted(s[..|s| - 1]);
      InsertSorted(SortExtents(s[..|s| - 1]), s[|s| - 1]);
    }
  }

  function OfObject(s: seq<Extent>, obj: uint32): (r: seq<Extent>)
    ensures multiset(r) <= multiset(s)
    ensures forall e <- r :: e.obj == obj
    ensures r == [] <==> forall e <- s :: e.obj != obj
  {
    if s == [] then [] else
    assert s == s[..|s| - 1] + [s[|s| - 1]];
    var r := OfObject(s[..|s| - 1], obj);
    if s[|s| - 1].obj == obj then r + [s[|s| - 1]] else r
  }

  /** Position of the first ROWID of a block of an extent. */
  function BlockPosition(e: Extent, n: nat): nat {
    e.obj * OBJECTS + FilePosition(e.fno, e.block + n)
  }

  function FilePosition(fno: nat, block: nat): nat {
    if fno == 1024 then block / 0x400000 * FILES + block % 0x400000 * ROWS else fno * FILES + block * ROWS
  }

  lemma FileInOrder(fno: nat, b1: nat, b2: nat)
    requires b1 < b2
    ensures FilePosition(fno, b1) < FilePosition(fno, b2)
  {
    if fno == 1024 {
      var q1, r1, q2, r2 := b1 / 0x400000, b1 % 0x400000, b2 / 0x400000, b2 % 0x400000;
      assert q1 < q2 || (q1 == q2 && r1 < r2);
    }
  }

  /** Blocks come in the order of the sorted extents. */
  lemma BlocksInOrder(s: seq<Extent>, i: nat, n: nat, k: nat, m: nat)
    requires Sorted(s) && Separate(multiset(s)) && i <= k < |s| && s[i].obj == s[k].obj
    requires i < k || n < m
    requires n < s[i].blocks && m < s[k].blocks
    ensures BlockPosition(s[i], n) < BlockPosition(s[k], m)
  {
    hide FilePosition;
    if i < k {
      Twice(s, i, k);
      assert s[i] in multiset(s) && s[k] in multiset(s);
      assert Apart(s[i], s[k]) && NotAfter(s[i], s[k]);
    }
    if s[i].fno == s[k].fno {
      FileInOrder(s[i].fno, s[i].block + n, s[k].block + m);
    } else {
      SmallFilesInOrder(s[i].fno, s[i].block + n, s[k].fno, s[k].block + m);
    }
  }

  lemma SmallFilesInOrder(f1: nat, b1: nat, f2: nat, b2: nat)
    requires f1 < f2 < 1024 && b1 < TWO32
    ensures FilePosition(f1, b1) < FilePosition(f2, b2)
  {}

  lemma Twice<T>(s: seq<T>, i: nat, k: nat)
    requires i < k < |s|
    ensures s[i] == s[k] ==> multiset(s)[s[i]] >= 2
  {
    assert s == s[..i] + [s[i]] + s[i + 1..k] + [s[k]] + s[k + 1..];
  }

  /** All blocks still to be placed, from block `off` of extent i on, lie at or behind a position; strictly behind
      it when the unit that starts there holds some blocks already. */
  ghost predicate Ahead(s: seq<Extent>, i: nat, off: nat, pos: nat, filled: nat) {
    forall k: nat, n: nat :: i <= k < |s| && (k == i ==> off <= n) && n < s[k].blocks ==>
      pos <= BlockPosition(s[k], n) && (filled > 0 ==> pos < BlockPosition(s[k], n))
  }

  lemma AheadOfCut(s: seq<Extent>, i: nat, off: nat)
    requires Sorted(s) && Separate(multiset(s)) && (forall e <- s :: e.obj == s[0].obj)
    requires i < |s| && off < s[i].blocks
    ensures Ahead(s, i, off, BlockPosition(s[i], off), 0)
  {
    hide BlockPosition;
    forall k: nat, n: nat | i <= k < |s| && (k == i ==> off <= n) && n < s[k].blocks
      ensures BlockPosition(s[i], off) <= BlockPosition(s[k], n)
    {
      if k > i || n > off { BlocksInOrder(s, i, off, k, n); }
    }
  }

  lemma AheadOfTaken(s: seq<Extent>, i: nat, off: nat, next: nat, pos: nat, filled: nat)
    requires Sorted(s) && Separate(multiset(s)) && (forall e <- s :: e.obj == s[0].obj)
    requires i < |s| && off < s[i].blocks && off < next
    requires Ahead(s, i, off, pos, 0)
    ensures Ahead(s, i, next, pos, filled)
  {
    hide BlockPosition;
    forall k: nat, n: nat | i <= k < |s| && (k == i ==> next <= n) && n < s[k].blocks
      ensures pos < BlockPosition(s[k], n)
    {
      BlocksInOrder(s, i, off, k, n);
      assert pos <= BlockPosition(s[i], off);
    }
  }

  /** Units that read, without gap or overlap, all ROWIDs from the first one of an object up to `lo`. */
  ghost predicate Open(units: seq<Unit>, lo: string, obj: uint32)
    decreases |units|
  {
    if units == [] then lo == RowidText(obj, 0, 0, 0)
    else
      var u := units[|units| - 1];
      && u.slice.hi == lo && !u.slice.inclusive && Position(u.slice.lo) < Position(lo)
      && Open(units[..|units| - 1], u.slice.lo, obj)
  }

  lemma OpenStep(units: seq<Unit>, u: Unit, obj: uint32)
    requires Open(units, u.slice.lo, obj) && !u.slice.inclusive && Position(u.slice.lo) < Position(u.slice.hi)
    ensures Open(units + [u], u.slice.hi, obj)
  {
    assert (units + [u])[..|units|] == units;
  }

  lemma {:induction false} OpenReaders(units: seq<Unit>, lo: string, obj: uint32, pos: nat)
    requires Open(units, lo, obj)
    ensures Position(RowidText(obj, 0, 0, 0)) <= Position(lo)
    ensures UnitReaders(units, pos) == if Position(RowidText(obj, 0, 0, 0)) <= pos < Position(lo) then 1 else 0
    decreases |units|
  {
    hide Position, RowidText;
    if units != [] {
      OpenReaders(units[..|units| - 1], units[|units| - 1].slice.lo, obj, pos);
    }
  }

  /** The last unit of an object reaches to the next object number, or to the highest ROWID of all. */
  ghost predicate Closes(slice: Slice, obj: uint32) {
    && Position(slice.lo) < (obj + 1) * OBJECTS
    && if obj == LAST_OBJECT then slice.inclusive && slice.hi == RowidText(obj, 1023, 0x3FFFFF, 65535)
       else !slice.inclusive && slice.hi == RowidText(obj + 1, 0, 0, 0)
  }

  /** The units of one object: an open chain and the unit that closes it. */
  ghost predicate Chain(units: seq<Unit>, obj: uint32) {
    && |units| > 0 && Closes(units[|units| - 1].slice, obj)
    && Open(units[..|units| - 1], units[|units| - 1].slice.lo, obj)
  }

  lemma ClosesContains(slice: Slice, obj: uint32, a: Address)
    requires Closes(slice, obj) && a.Valid()
    ensures Contains(slice, a.Pos()) <==> Position(slice.lo) <= a.Pos() < (obj + 1) * OBJECTS
  {
    hide Position, RowidText;
    PositionOfRowid(a.obj, a.file, a.block, a.row);
    if obj == LAST_OBJECT {
      PositionOfRowid(obj, 1023, 0x3FFFFF, 65535);
    } else {
      PositionOfRowid(obj + 1, 0, 0, 0);
    }
  }

  /** The units of an object read each of its rows once and nothing else. */
  lemma ChainReaders(units: seq<Unit>, obj: uint32, a: Address)
    requires Chain(units, obj) && a.Valid()
    ensures UnitReaders(units, a.Pos()) == if a.obj == obj then 1 else 0
  {
    hide Position, RowidText, Open, Closes, Contains;
    var n := |units| - 1;
    OpenReaders(units[..n], units[n].slice.lo, obj, a.Pos());
    ClosesContains(units[n].slice, obj, a);
    assert Position(units[n].slice.lo) < (obj + 1) * OBJECTS by { ClosesBelow(units[n].slice, obj); }
    PositionOfRowid(obj, 0, 0, 0);
    PositionOfRowid(a.obj, a.file, a.block, a.row);
  }

  lemma ClosesBelow(slice: Slice, obj: uint32)
    requires Closes(slice, obj)
    ensures Position(slice.lo) < (obj + 1) * OBJECTS
  {}

  lemma {:induction false} ReadersConcat(s: seq<Unit>, t: seq<Unit>, pos: nat)
    ensures UnitReaders(s + t, pos) == UnitReaders(s, pos) + UnitReaders(t, pos)
  {
    hide Contains;
    if t == [] {
      assert s + t == s;
    } else {
      ReadersConcat(s, t[..|t| - 1], pos);
      assert (s + t)[..|s + t| - 1] == s + t[..|t| - 1];
    }
  }

  lemma ReadersOne(u: Unit, pos: nat)
    ensures UnitReaders([u], pos) == if Contains(u.slice, pos) then 1 else 0
  {
    hide Contains;
    assert [u][..0] == [];
  }

  lemma RemoveOne<T>(t: seq<T>, j: nat)
    requires j < |t|
    ensures multiset(t[..j] + t[j + 1..]) == multiset(t) - multiset{t[j]}
  {
    assert t == t[..j] + [t[j]] + t[j + 1..];
  }

  lemma ReadersWithoutOne(t: seq<Unit>, j: nat, pos: nat)
    requires j < |t|
    ensures UnitReaders(t, pos) == UnitReaders(t[..j] + t[j + 1..], pos) + if Contains(t[j].slice, pos) then 1 else 0
  {
    hide Contains, Readers;
    ReadersConcat(t[..j], [t[j]], pos);
    ReadersConcat(t[..j] + [t[j]], t[j + 1..], pos);
    ReadersConcat(t[..j], t[j + 1..], pos);
    ReadersOne(t[j], pos);
    assert t == t[..j] + [t[j]] + t[j + 1..];
  }

  /** Reordering units does not change who reads a row. */
  lemma {:induction false} ReadersOfPermutation(s: seq<Unit>, t: seq<Unit>, pos: nat)
    requires multiset(s) == multiset(t)
    ensures UnitReaders(s, pos) == UnitReaders(t, pos)
    decreases |s|
  {
    hide Contains, Readers;
    assert |s| == |multiset(s)| == |t|;
    if s == [] {
      assert t == [];
    } else {
      var n := |s| - 1;
      assert s[n] in multiset(t);
      var j :| 0 <= j < |t| && t[j] == s[n];
      RemoveOne(s, n);
      RemoveOne(t, j);
      ReadersOfPermutation(s[..n] + s[n + 1..], t[..j] + t[j + 1..], pos);
      ReadersWithoutOne(s, n, pos);
      ReadersWithoutOne(t, j, pos);
    }
  }

  function Blocks(extents: seq<Extent>): nat {
    if extents == [] then 0 else Blocks(extents[..|extents| - 1]) + extents[|extents| - 1].blocks
  }

  function UnitBlocks(units: seq<Unit>): nat {
    if units == [] then 0 else UnitBlocks(units[..|units| - 1]) + units[|units| - 1].blocks
  }

  lemma UnitBlocksStep(units: seq<Unit>, u: Unit)
    ensures UnitBlocks(units + [u]) == UnitBlocks(units) + u.blocks
  {
    assert (units + [u])[..|units|] == units;
  }

  lemma BlocksStep(s: seq<Extent>, i: nat)
    requires i < |s|
    ensures Blocks(s[..i + 1]) == Blocks(s[..i]) + s[i].blocks
  {
    assert s[..i + 1][..i] == s[..i];
  }

  /** Cuts one object into units of `target` blocks; the last one takes what is left. */
  method CutObject(obj: uint32, list: seq<Extent>, target: nat) returns (units: seq<Unit>)
    requires target > 0 && Sorted(list) && Separate(multiset(list)) && forall e <- list :: e.obj == obj
    ensures Chain(units, obj)
    ensures UnitBlocks(units) == Blocks(list)
    ensures |units| > 0 && units[|units| - 1].blocks <= target
    ensures forall i :: 0 <= i < |units| - 1 ==> units[i].blocks == target
  {
    hide Position, RowidText, Ahead, Open, BlockPosition, Sorted, Separate, Blocks, UnitBlocks, Closes;
    units := [];
    var lo := EncodeRowid(obj, 0, 0, 0);
    var filled: nat := 0;
    PositionOfRowid(obj, 0, 0, 0);
    assert Position(lo) == obj * OBJECTS;
    OpenStart(obj);
    AheadOfStart(list, obj);
    NoBlocks();
    assert list[..0] == [];
    var i := 0;
    while i < |list|
      invariant i <= |list|
      invariant Open(units, lo, obj) && Ahead(list, i, 0, Position(lo), filled)
      invariant Position(lo) < (obj + 1) * OBJECTS
      invariant UnitBlocks(units) + filled == Blocks(list[..i])
      invariant filled <= target && forall k :: 0 <= k < |units| ==> units[k].blocks == target
    {
      var e := list[i];
      var offset: nat := 0;
      while offset < e.blocks
        invariant offset <= e.blocks
        invariant Open(units, lo, obj) && Ahead(list, i, offset, Position(lo), filled)
        invariant Position(lo) < (obj + 1) * OBJECTS
        invariant UnitBlocks(units) + filled == Blocks(list[..i]) + offset
        invariant filled <= target && forall k :: 0 <= k < |units| ==> units[k].blocks == target
      {
        ExtentFits(list, i);
        if filled >= target {
          var boundary := EncodeRowid(obj, e.fno, e.block + offset, 0);
          BoundaryPosition(e, offset);
          AheadHere(list, i, offset, Position(lo), filled);
          var u := Unit(Slice(lo, boundary, false), filled);
          OpenStep(units, u, obj);
          UnitBlocksStep(units, u);
          AheadOfCut(list, i, offset);
          units, lo, filled := units + [u], boundary, 0;
        }
        var take := if e.blocks - offset <= target - filled then e.blocks - offset else target - filled;
        AheadWeaker(list, i, offset, Position(lo), filled);
        AheadOfTaken(list, i, offset, offset + take, Position(lo), filled + take);
        filled := filled + take;
        offset := offset + take;
      }
      AheadOfNext(list, i, offset, Position(lo), filled);
      BlocksStep(list, i);
      i := i + 1;
    }
    assert list[..i] == list;
    var slice: Slice;
    if obj == LAST_OBJECT {
      var hi := EncodeRowid(obj, 1023, 0x3FFFFF, 65535);
      slice := Slice(lo, hi, true);
    } else {
      var hi := EncodeRowid(obj + 1, 0, 0, 0);
      slice := Slice(lo, hi, false);
    }
    UnitBlocksStep(units, Unit(slice, filled));
    ClosesWith(slice, obj);
    assert (units + [Unit(slice, filled)])[..|units|] == units;
    units := units + [Unit(slice, filled)];
  }

  lemma NoBlocks()
    ensures Blocks([]) == 0 && UnitBlocks([]) == 0
  {}

  lemma OpenStart(obj: uint32)
    ensures Open([], RowidText(obj, 0, 0, 0), obj)
  {}

  lemma AheadOfStart(list: seq<Extent>, obj: uint32)
    requires forall e <- list :: e.obj == obj
    ensures Ahead(list, 0, 0, obj * OBJECTS, 0)
  {}

  lemma ExtentFits(list: seq<Extent>, i: nat)
    requires Separate(multiset(list)) && i < |list|
    ensures list[i].fno <= 1024 && list[i].block + list[i].blocks <= TWO32
  {
    assert list[i] in multiset(list);
  }

  lemma BoundaryPosition(e: Extent, offset: nat)
    requires e.fno <= 1024 && e.block + e.blocks <= TWO32 && offset < e.blocks
    ensures Position(RowidText(e.obj, FileField(e.fno, e.block + offset), BlockField(e.fno, e.block + offset), 0))
         == BlockPosition(e, offset) < (e.obj + 1) * OBJECTS
  {
    hide Position, RowidText;
    PositionOfRowid(e.obj, FileField(e.fno, e.block + offset), BlockField(e.fno, e.block + offset), 0);
  }

  lemma AheadHere(s: seq<Extent>, i: nat, off: nat, pos: nat, filled: nat)
    requires Ahead(s, i, off, pos, filled) && filled > 0 && i < |s| && off < s[i].blocks
    ensures pos < BlockPosition(s[i], off)
  {}

  lemma AheadWeaker(s: seq<Extent>, i: nat, off: nat, pos: nat, filled: nat)
    requires Ahead(s, i, off, pos, filled)
    ensures Ahead(s, i, off, pos, 0)
  {}

  lemma AheadOfNext(s: seq<Extent>, i: nat, off: nat, pos: nat, filled: nat)
    requires Ahead(s, i, off, pos, filled)
    ensures Ahead(s, i + 1, 0, pos, filled)
  {}

  lemma ClosesWith(slice: Slice, obj: uint32)
    requires Position(slice.lo) < (obj + 1) * OBJECTS
    requires if obj == LAST_OBJECT then slice.inclusive && slice.hi == RowidText(obj, 1023, 0x3FFFFF, 65535)
             else !slice.inclusive && slice.hi == RowidText(obj + 1, 0, 0, 0)
    ensures Closes(slice, obj)
  {}

  lemma {:induction false} SeparateObject(s: seq<Extent>, obj: uint32)
    requires Separate(multiset(s))
    ensures Separate(multiset(SortExtents(OfObject(s, obj))))
  {
    hide SortExtents, OfObject, Apart;
    var m := multiset(OfObject(s, obj));
    assert forall e <- m :: e in multiset(s) && m[e] <= multiset(s)[e];
  }

  lemma {:induction false} SortedBlocks(s: seq<Extent>)
    ensures Blocks(SortExtents(s)) == Blocks(s)
  {
    if s != [] {
      SortedBlocks(s[..|s| - 1]);
      InsertedBlocks(SortExtents(s[..|s| - 1]), s[|s| - 1]);
    }
  }

  lemma BlocksAppend(s: seq<Extent>, e: Extent)
    ensures Blocks(s + [e]) == Blocks(s) + e.blocks
  {
    assert (s + [e])[..|s|] == s;
  }

  lemma {:induction false} InsertedBlocks(s: seq<Extent>, e: Extent)
    ensures Blocks(InsertExtent(s, e)) == Blocks(s) + e.blocks
  {
    hide NotAfter, Blocks;
    if s == [] || NotAfter(s[|s| - 1], e) {
      BlocksAppend(s, e);
    } else {
      var t, last := s[..|s| - 1], s[|s| - 1];
      InsertedBlocks(t, e);
      BlocksAppend(InsertExtent(t, e), last);
      BlocksAppend(t, last);
      assert s == t + [last];
    }
  }

  /** Objects in increasing order, each with its own extents: the iteration over the ordered map. */
  ghost predicate Grouped(groups: map<uint32, seq<Extent>>, extents: seq<Extent>) {
    && (forall e <- extents :: e.obj in groups)
    && (forall o <- groups :: groups[o] == OfObject(extents, o) && groups[o] != [])
  }

  lemma OfObjectStep(s: seq<Extent>, e: Extent, obj: uint32)
    ensures OfObject(s + [e], obj) == OfObject(s, obj) + if e.obj == obj then [e] else []
  {
    assert (s + [e])[..|s|] == s;
  }

  lemma NoneOfObject(s: seq<Extent>, obj: uint32)
    requires forall e <- s :: e.obj != obj
    ensures OfObject(s, obj) == []
  {}

  lemma GroupStep(groups: map<uint32, seq<Extent>>, s: seq<Extent>, e: Extent)
    requires Grouped(groups, s)
    ensures Grouped(groups[e.obj := (if e.obj in groups then groups[e.obj] else []) + [e]], s + [e])
  {
    hide OfObject;
    var more := groups[e.obj := (if e.obj in groups then groups[e.obj] else []) + [e]];
    forall o | o in more
      ensures more[o] == OfObject(s + [e], o) && more[o] != []
    {
      OfObjectStep(s, e, o);
      if o != e.obj { assert OfObject(s, o) + [] == OfObject(s, o); }
      if o !in groups { NoneOfObject(s, o); }
    }
  }

  method GroupByObject(extents: seq<Extent>) returns (groups: map<uint32, seq<Extent>>)
    ensures Grouped(groups, extents)
  {
    hide Grouped;
    groups := map[];
    EmptyGroups();
    assert extents[..0] == [];
    for i := 0 to |extents|
      invariant Grouped(groups, extents[..i])
    {
      var e := extents[i];
      GroupStep(groups, extents[..i], e);
      assert extents[..i + 1] == extents[..i] + [e];
      groups := groups[e.obj := (if e.obj in groups then groups[e.obj] else []) + [e]];
    }
    assert extents[..|extents|] == extents;
  }

  lemma EmptyGroups()
    ensures Grouped(map[], [])
  {}

  lemma Least(s: set<uint32>) returns (o: uint32)
    requires s != {}
    ensures o in s && forall p <- s :: o <= p
  {
    o :| o in s;
    var rest, first := s - {o}, o;
    assert forall p <- s :: p == first || p in rest;
    if rest != {} {
      var q := Least(rest);
      if q < o { o := q; }
    }
  }

  function InsertUnit(s: seq<Unit>, u: Unit): (r: seq<Unit>)
    ensures multiset(r) == multiset(s) + multiset{u}
  {
    if s == [] || s[|s| - 1].blocks >= u.blocks then s + [u] else
    assert s == s[..|s| - 1] + [s[|s| - 1]];
    InsertUnit(s[..|s| - 1], u) + [s[|s| - 1]]
  }

  /** Largest first; units of the same size stay in their order. */
  function LargestFirst(s: seq<Unit>): (r: seq<Unit>)
    ensures multiset(r) == multiset(s)
  {
    if s == [] then [] else
    assert s == s[..|s| - 1] + [s[|s| - 1]];
    InsertUnit(LargestFirst(s[..|s| - 1]), s[|s| - 1])
  }

  ghost predicate Descending(s: seq<Unit>) {
    forall i, j :: 0 <= i < j < |s| ==> s[i].blocks >= s[j].blocks
  }

  function OfSize(s: seq<Unit>, blocks: nat): seq<Unit> {
    if s == [] then [] else
    OfSize(s[..|s| - 1], blocks) + if s[|s| - 1].blocks == blocks then [s[|s| - 1]] else []
  }

  lemma DescendingAppend(s: seq<Unit>, u: Unit)
    requires Descending(s) && forall x <- s :: x.blocks >= u.blocks
    ensures Descending(s + [u])
  {}

  lemma {:induction false} InsertUnitDescending(s: seq<Unit>, u: Unit)
    requires Descending(s)
    ensures Descending(InsertUnit(s, u))
  {
    hide Descending;
    if s == [] || s[|s| - 1].blocks >= u.blocks {
      DescendingFrom(s);
      DescendingAppend(s, u);
    } else {
      var t, last := s[..|s| - 1], s[|s| - 1];
      DescendingFrom(s);
      InsertUnitDescending(t, u);
      forall x <- InsertUnit(t, u)
        ensures x.blocks >= last.blocks
      {
        assert x in multiset(InsertUnit(t, u));
        assert x in multiset(t) || x == u;
      }
      DescendingAppend(InsertUnit(t, u), last);
    }
  }

  lemma DescendingFrom(s: seq<Unit>)
    requires Descending(s)
    ensures |s| > 0 ==> Descending(s[..|s| - 1]) && forall x <- s :: x.blocks >= s[|s| - 1].blocks
  {}

  lemma OfSizeStep(s: seq<Unit>, u: Unit, size: nat)
    ensures OfSize(s + [u], size) == OfSize(s, size) + if u.blocks == size then [u] else []
  {
    assert (s + [u])[..|s|] == s;
  }

  lemma {:induction false} InsertUnitStable(s: seq<Unit>, u: Unit, size: nat)
    requires Descending(s)
    ensures OfSize(InsertUnit(s, u), size) == OfSize(s, size) + if u.blocks == size then [u] else []
  {
    hide OfSize;
    if s == [] || s[|s| - 1].blocks >= u.blocks {
      OfSizeStep(s, u, size);
    } else {
      var t, last := s[..|s| - 1], s[|s| - 1];
      InsertUnitStable(t, u, size);
      OfSizeStep(InsertUnit(t, u), last, size);
      OfSizeStep(t, last, size);
      assert s == t + [last];
      if u.blocks == size && last.blocks != size { assert OfSize(t, size) + [] == OfSize(t, size); }
    }
  }

  /** The final sort is a stable permutation. */
  lemma {:induction false} LargestFirstIsStable(s: seq<Unit>, size: nat)
    ensures Descending(LargestFirst(s)) && OfSize(LargestFirst(s), size) == OfSize(s, size)
  {
    if s != [] {
      LargestFirstIsStable(s[..|s| - 1], size);
      InsertUnitDescending(LargestFirst(s[..|s| - 1]), s[|s| - 1]);
      InsertUnitStable(LargestFirst(s[..|s| - 1]), s[|s| - 1], size);
    }
  }

  lemma {:induction false} UnitBlocksOfSorted(s: seq<Unit>)
    ensures UnitBlocks(LargestFirst(s)) == UnitBlocks(s)
  {
    if s != [] {
      UnitBlocksOfSorted(s[..|s| - 1]);
      InsertedUnitBlocks(LargestFirst(s[..|s| - 1]), s[|s| - 1]);
    }
  }

  lemma {:induction false} InsertedUnitBlocks(s: seq<Unit>, u: Unit)
    ensures UnitBlocks(InsertUnit(s, u)) == UnitBlocks(s) + u.blocks
  {
    if s == [] || s[|s| - 1].blocks >= u.blocks {
      UnitBlocksStep(s, u);
    } else {
      InsertedUnitBlocks(s[..|s| - 1], u);
      UnitBlocksStep(InsertUnit(s[..|s| - 1], u), s[|s| - 1]);
    }
  }

  /** Blocks of the extents of some objects. */
  function BlocksIn(extents: seq<Extent>, objects: set<uint32>): nat {
    if extents == [] then 0 else
    var e := extents[|extents| - 1];
    BlocksIn(extents[..|extents| - 1], objects) + if e.obj in objects then e.blocks else 0
  }

  lemma {:induction false} BlocksInMore(s: seq<Extent>, objects: set<uint32>, obj: uint32)
    requires obj !in objects
    ensures BlocksIn(s, objects + {obj}) == BlocksIn(s, objects) + Blocks(OfObject(s, obj))
  {
    hide OfObject, Blocks;
    if s == [] {
      NoBlocks();
      NoneOfObject(s, obj);
    } else {
      var t, e := s[..|s| - 1], s[|s| - 1];
      BlocksInMore(t, objects, obj);
      assert s == t + [e];
      OfObjectStep(t, e, obj);
      if e.obj == obj {
        BlocksAppend(OfObject(t, obj), e);
      } else {
        assert OfObject(t, obj) + [] == OfObject(t, obj);
      }
    }
  }

  lemma {:induction false} BlocksInAll(s: seq<Extent>, objects: set<uint32>)
    requires forall e <- s :: e.obj in objects
    ensures BlocksIn(s, objects) == Blocks(s)
  {
    if s != [] { BlocksInAll(s[..|s| - 1], objects); }
  }

  lemma {:induction false} BlocksInNone(s: seq<Extent>)
    ensures BlocksIn(s, {}) == 0
  {
    if s != [] { BlocksInNone(s[..|s| - 1]); }
  }

  lemma {:induction false} UnitBlocksConcat(s: seq<Unit>, t: seq<Unit>)
    ensures UnitBlocks(s + t) == UnitBlocks(s) + UnitBlocks(t)
  {
    if t == [] {
      assert s + t == s;
    } else {
      UnitBlocksConcat(s, t[..|t| - 1]);
      assert (s + t)[..|s + t| - 1] == s + t[..|t| - 1];
    }
  }

  ghost predicate ReadOnce(units: seq<Unit>, objects: set<uint32>) {
    forall a: Address :: a.Valid() ==> UnitReaders(units, a.Pos()) == if a.obj in objects then 1 else 0
  }

  lemma ReadOnceMore(units: seq<Unit>, objects: set<uint32>, chain: seq<Unit>, obj: uint32)
    requires ReadOnce(units, objects) && Chain(chain, obj) && obj !in objects
    ensures ReadOnce(units + chain, objects + {obj})
  {
    hide Chain, UnitReaders;
    forall a: Address | a.Valid()
      ensures UnitReaders(units + chain, a.Pos()) == if a.obj in objects + {obj} then 1 else 0
    {
      ReadersConcat(units, chain, a.Pos());
      ChainReaders(chain, obj, a);
    }
  }

  lemma ReadOnceSorted(units: seq<Unit>, objects: set<uint32>)
    requires ReadOnce(units, objects)
    ensures ReadOnce(LargestFirst(units), objects)
  {
    hide UnitReaders;
    forall a: Address | a.Valid()
      ensures UnitReaders(LargestFirst(units), a.Pos()) == UnitReaders(units, a.Pos())
    {
      ReadersOfPermutation(LargestFirst(units), units, a.Pos());
    }
  }

  function SlicesOf(units: seq<Unit>): (s: seq<Slice>)
    ensures |s| == |units| && forall i :: 0 <= i < |units| ==> s[i] == units[i].slice
  {
    seq(|units|, i requires 0 <= i < |units| => units[i].slice)
  }

  lemma {:induction false} ReadersOfUnits(units: seq<Unit>, pos: nat)
    ensures Readers(SlicesOf(units), pos) == UnitReaders(units, pos)
  {
    hide Contains;
    if units != [] {
      ReadersOfUnits(units[..|units| - 1], pos);
      assert SlicesOf(units)[..|units| - 1] == SlicesOf(units[..|units| - 1]);
    }
  }

  /** The units of all objects, in the order of the object numbers. */
  method CutObjects(groups: map<uint32, seq<Extent>>, ghost extents: seq<Extent>, target: nat)
      returns (all: seq<Unit>)
    requires Separate(multiset(extents)) && Grouped(groups, extents) && target > 0
    ensures ReadOnce(all, groups.Keys) && UnitBlocks(all) == Blocks(extents)
    ensures NoneAbove(all, target)
  {
    hide Separate, Blocks, BlocksIn, UnitBlocks, OfObject, SortExtents, Chain, ReadOnce, Sorted, NoneAbove, Grouped;
    all := [];
    NoUnits(target);
    ghost var done: set<uint32> := {};
    var left := groups.Keys;
    NothingRead(extents);
    while left != {}
      invariant done + left == groups.Keys && done !! left
      invariant ReadOnce(all, done) && UnitBlocks(all) == BlocksIn(extents, done)
      invariant NoneAbove(all, target)
      decreases |left|
    {
      ghost var least := Least(left);
      var obj :| obj in left && forall p <- left :: obj <= p;
      PrepareList(extents, obj);
      GroupOf(groups, extents, obj);
      var chain := CutObject(obj, SortExtents(groups[obj]), target);
      ReadOnceMore(all, done, chain, obj);
      UnitBlocksConcat(all, chain);
      NoneAboveConcat(all, chain, target);
      BlocksInMore(extents, done, obj);
      all := all + chain;
      left, done := left - {obj}, done + {obj};
    }
    assert done == groups.Keys;
    BlocksInGroups(groups, extents);
  }

  ghost predicate NoneAbove(units: seq<Unit>, target: nat) {
    forall u <- units :: u.blocks <= target
  }

  lemma NoUnits(target: nat)
    ensures NoneAbove([], target)
  {}

  lemma NoneAboveConcat(s: seq<Unit>, t: seq<Unit>, target: nat)
    requires NoneAbove(s, target) && |t| > 0 && t[|t| - 1].blocks <= target
    requires forall i :: 0 <= i < |t| - 1 ==> t[i].blocks == target
    ensures NoneAbove(s + t, target)
  {}

  lemma GroupOf(groups: map<uint32, seq<Extent>>, extents: seq<Extent>, obj: uint32)
    requires Grouped(groups, extents) && obj in groups
    ensures groups[obj] == OfObject(extents, obj)
  {}

  lemma BlocksInGroups(groups: map<uint32, seq<Extent>>, extents: seq<Extent>)
    requires Grouped(groups, extents)
    ensures BlocksIn(extents, groups.Keys) == Blocks(extents)
  {
    BlocksInAll(extents, groups.Keys);
  }

  lemma NoneAboveSorted(units: seq<Unit>, target: nat)
    requires NoneAbove(units, target)
    ensures NoneAbove(LargestFirst(units), target)
  {
    forall u <- LargestFirst(units)
      ensures u.blocks <= target
    {
      assert u in multiset(LargestFirst(units));
    }
  }

  /** The sorted extents of an object are what CutObject asks for. */
  lemma PrepareList(extents: seq<Extent>, obj: uint32)
    requires Separate(multiset(extents))
    ensures var list := SortExtents(OfObject(extents, obj));
            && Sorted(list) && Separate(multiset(list)) && (forall e <- list :: e.obj == obj)
            && Blocks(list) == Blocks(OfObject(extents, obj))
  {
    hide Separate, SortExtents, Sorted, Blocks;
    var list := OfObject(extents, obj);
    SortExtentsSorted(list);
    SeparateObject(extents, obj);
    SortedMembers(list, obj);
    SortedBlocks(list);
  }

  predicate Listed(extents: seq<Extent>, obj: uint32) {
    exists e <- extents :: e.obj == obj
  }

  /** Every row of a listed object is in one slice, and no other row is in any. */
  ghost predicate EachReadOnce(slices: seq<Slice>, extents: seq<Extent>) {
    forall a: Address :: a.Valid() ==> Readers(slices, a.Pos()) == if Listed(extents, a.obj) then 1 else 0
  }

  /** Work units that hold every row of every listed object exactly once, and no row of any other object,
      largest first and none above the target. */
  method BuildRowidSlices(extents: seq<Extent>, targetBlocks: nat) returns (slices: seq<Slice>, ghost units: seq<Unit>)
    requires Separate(multiset(extents))
    ensures EachReadOnce(slices, extents)
    ensures slices == SlicesOf(units) && Descending(units) && UnitBlocks(units) == Blocks(extents)
    ensures NoneAbove(units, if targetBlocks == 0 then 1 else targetBlocks)
  {
    hide Separate, Readers, UnitReaders, Blocks, UnitBlocks, ReadOnce, LargestFirst, Grouped, NoneAbove, Descending,
         Listed;
    var groups := GroupByObject(extents);
    var all := CutObjects(groups, extents, if targetBlocks == 0 then 1 else targetBlocks);
    units := LargestFirst(all);
    ReadOnceSorted(all, groups.Keys);
    LargestFirstIsStable(all, 0);
    UnitBlocksOfSorted(all);
    slices := SlicesOf(LargestFirst(all));
    NoneAboveSorted(all, if targetBlocks == 0 then 1 else targetBlocks);
    ListedObjects(extents, groups);
    ReadOnceSlices(units, groups.Keys);
  }

  lemma NothingRead(extents: seq<Extent>)
    ensures ReadOnce([], {}) && UnitBlocks([]) == BlocksIn(extents, {})
  {
    BlocksInNone(extents);
  }

  lemma SortedMembers(s: seq<Extent>, obj: uint32)
    requires forall e <- s :: e.obj == obj
    ensures forall e <- SortExtents(s) :: e.obj == obj
  {
    assert forall e <- SortExtents(s) :: e in multiset(SortExtents(s));
  }

  lemma ListedObjects(extents: seq<Extent>, groups: map<uint32, seq<Extent>>)
    requires Grouped(groups, extents)
    ensures forall o: uint32 :: o in groups <==> Listed(extents, o)
  {}

  lemma ReadOnceSlices(units: seq<Unit>, objects: set<uint32>)
    requires ReadOnce(units, objects)
    ensures forall a: Address :: a.Valid() ==> Readers(SlicesOf(units), a.Pos()) == if a.obj in objects then 1 else 0
  {
    hide Readers, UnitReaders;
    forall a: Address | a.Valid()
      ensures Readers(SlicesOf(units), a.Pos()) == if a.obj in objects then 1 else 0
    {
      ReadersOfUnits(units, a.Pos());
    }
  }
}
