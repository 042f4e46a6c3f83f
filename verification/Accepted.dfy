/**
 * What libfdt writes it accepts: a blob that the sequential writer has finished, or that has been edited, has a header
 * with which fdt_check_full accepts it if its tree is of the accepted shape.
 */
module Accepted {
  import opened Bytes
  import opened Tree
  import opened Encoding
  import opened Positions
  import opened Tags
  import opened Check
  import opened Blobs
  import opened FdtSw
  import Programs

  // ----- Header cells -----

  type cell = v: int | 0 <= v < U32

  function Cells(vs: seq<cell>): (b: Str)
    ensures |b| == 4 * |vs|
  {
    if vs == [] then [] else Put32(vs[0]) + Cells(vs[1..])
  }

  lemma {:induction false} CellIs(vs: seq<cell>, rest: Str, i: nat)
    requires i < |vs|
    ensures Get32(Cells(vs) + rest, 4 * i) == vs[i]
  {
    hide Put32, Get32;
    var a, c := Put32(vs[0]), Cells(vs[1..]);
    assert Cells(vs) + rest == a + (c + rest);
    if i == 0 {
      PutGet32(vs[0]);
      GetFront(a, c + rest);
    } else {
      CellIs(vs[1..], rest, i - 1);
      GetBehind(a, c + rest, 4 * (i - 1));
    }
  }

  lemma GetFront(a: Str, b: Str)
    requires |a| == 4
    ensures Get32(a + b, 0) == Get32(a, 0)
  {
  }

  lemma GetBehind(a: Str, b: Str, i: nat)
    requires |a| == 4 && i + 4 <= |b|
    ensures Get32(a + b, 4 + i) == Get32(b, i)
  {
  }

  /** What the cells of a header say, but for magic and version. */
  datatype Header = Header(total: cell, offStruct: cell, offStrings: cell, offRsv: cell, last: cell, boot: cell,
    sizeStrings: cell, sizeStruct: cell)

  function CellsOf(h: Header): seq<cell> {
    [MAGIC, h.total, h.offStruct, h.offStrings, h.offRsv, LAST_VERSION, h.last, h.boot, h.sizeStrings, h.sizeStruct]
  }

  /** The bytes m with the header stored in front. */
  function WithHeader(h: Header, m: Str): (b: Str)
    requires |m| >= V17_SIZE
    ensures |b| == |m|
  {
    Cells(CellsOf(h)) + m[V17_SIZE..]
  }

  lemma HeaderReads(h: Header, m: Str)
    requires |m| >= V17_SIZE
    ensures var b := WithHeader(h, m);
            && Get32(b, 0) == MAGIC && TotalSize(b) == h.total && OffStruct(b) == h.offStruct
               && OffStrings(b) == h.offStrings && OffRsv(b) == h.offRsv
            && Version(b) == LAST_VERSION && LastComp(b) == h.last && SizeStrings(b) == h.sizeStrings
               && SizeStruct(b) == h.sizeStruct
  {
    hide Get32, Cells;
    var vs, rest, b := CellsOf(h), m[V17_SIZE..], WithHeader(h, m);
    forall i: nat | i < 10
      ensures Get32(b, 4 * i) == vs[i]
    {
      CellIs(vs, rest, i);
    }
    assert Get32(b, 4 * 0) == vs[0] && Get32(b, 4 * 1) == vs[1] && Get32(b, 4 * 2) == vs[2] && Get32(b, 4 * 3) == vs[3];
    assert Get32(b, 4 * 4) == vs[4] && Get32(b, 4 * 5) == vs[5] && Get32(b, 4 * 6) == vs[6];
    assert Get32(b, 4 * 8) == vs[8] && Get32(b, 4 * 9) == vs[9];
  }

  lemma BehindHeader(h: Header, m: Str, lo: nat, size: nat)
    requires V17_SIZE <= lo && lo + size <= |m|
    ensures Block(WithHeader(h, m), lo, size) == Block(m, lo, size)
  {
    hide Cells;
    var x, y := Block(WithHeader(h, m), lo, size), Block(m, lo, size);
    forall k | 0 <= k < size
      ensures x[k] == y[k]
    {
      assert WithHeader(h, m)[lo + k] == m[V17_SIZE..][lo + k - V17_SIZE] == m[lo + k];
    }
  }

  /** The blocks lie behind the header and in the blob. */
  predicate Fitting(h: Header, size: nat) {
    && h.total == size <= INT_MAX && h.last <= LAST_VERSION && V17_SIZE <= h.offRsv <= size
    && V17_SIZE <= h.offStruct && h.offStruct + h.sizeStruct <= size && V17_SIZE <= h.offStrings
       && h.offStrings + h.sizeStrings <= size
  }

  lemma HeaderFramed(h: Header, m: Str)
    requires |m| >= V17_SIZE && Fitting(h, |m|)
    ensures var b := WithHeader(h, m);
            && Framed(b) && TotalSize(b) == |b| && RsvMap(b) == Block(m, h.offRsv, |m| - h.offRsv)
            && View(b) == Fdt(Block(m, h.offStruct, h.sizeStruct), Block(m, h.offStrings, h.sizeStrings))
  {
    hide WithHeader, Get32, TotalSize, OffStruct, OffStrings, OffRsv, Version, LastComp, SizeStrings, SizeStruct;
    var b := WithHeader(h, m);
    HeaderReads(h, m);
    BlockFits(|m|, h.offStruct, h.sizeStruct);
    BlockFits(|m|, h.offStrings, h.sizeStrings);
    BehindHeader(h, m, h.offRsv, |m| - h.offRsv);
    BehindHeader(h, m, h.offStruct, h.sizeStruct);
    BehindHeader(h, m, h.offStrings, h.sizeStrings);
    assert b[h.offRsv..|m|] == Block(b, h.offRsv, |m| - h.offRsv);
  }

  // ----- Blobs that are accepted -----

  /** What fdt_check_full accepts, at an address that is a multiple of 8. */
  ghost predicate Passes(b: Str) {
    Framed(b) && RsvEnds(RsvMap(b)) && WellTagged(View(b))
  }

  lemma EndsOn(b: Str, n: nat)
    requires n <= |b| && RsvEnds(b[..n])
    ensures RsvEnds(b)
  {
    var i: nat :| 16 * i + 16 <= n && Programs.MemRsv(b[..n], i).size == 0;
    assert Programs.MemRsv(b, i) == Programs.MemRsv(b[..n], i);
  }

  lemma StoredGood(h: Header, m: Str, n: nat, f: Forest)
    requires |m| >= V17_SIZE && Fitting(h, |m|) && h.offRsv + n <= |m| && RsvEnds(Block(m, h.offRsv, n))
    requires Encodes(Fdt(Block(m, h.offStruct, h.sizeStruct), Block(m, h.offStrings, h.sizeStrings)), f)
             && Acceptable(f)
    ensures Passes(WithHeader(h, m))
  {
    hide RsvEnds, Encodes, WithHeader, Acceptable, Framed, View;
    HeaderFramed(h, m);
    var r := Block(m, h.offRsv, |m| - h.offRsv);
    SliceSlice(m, h.offRsv, |m|, 0, n);
    assert r[..n] == r[0..n] == Block(m, h.offRsv, n);
    EndsOn(r, n);
    IsSound(View(WithHeader(h, m)), f);
  }

  /** A blob that the writer has finished: the root has no name, and nothing but NOPs is in front of it. */
  lemma FinishedGood(w: Writer, boot: cell, f: Forest)
    requires w.Layout() && w.finished && w.offStrings == w.offStruct + w.sizeStruct
             && w.totalsize == w.offStrings + w.sizeStrings
    requires Encodes(Fdt(w.Struct(), w.Strs()), f) && Acceptable(f) && RsvEnds(w.RsvBlock())
    ensures Passes(WithHeader(Header(w.totalsize, w.offStruct, w.offStrings, HEADER_SIZE, 16, boot, w.sizeStrings,
            w.sizeStruct),
                            Block(w.bytes, w.base, w.totalsize)))
  {
    hide RsvEnds, Encodes, Acceptable, Block, WithHeader, Passes;
    var m := Block(w.bytes, w.base, w.totalsize);
    BlockBlock(w.bytes, w.base, w.totalsize, HEADER_SIZE, w.offStruct - HEADER_SIZE);
    BlockBlock(w.bytes, w.base, w.totalsize, w.offStruct, w.sizeStruct);
    BlockBlock(w.bytes, w.base, w.totalsize, w.offStrings, w.sizeStrings);
    StoredGood(Header(w.totalsize, w.offStruct, w.offStrings, HEADER_SIZE, 16, boot, w.sizeStrings, w.sizeStruct), m,
      w.offStruct - HEADER_SIZE, f);
  }

  /** A blob that has been edited. */
  lemma EditedGood(fdt: Blob, last: cell, boot: cell)
    requires fdt.Valid() && Acceptable(fdt.root) && RsvEnds(fdt.Reserve()) && last <= LAST_VERSION
    ensures Passes(WithHeader(Header(fdt.totalsize, fdt.offStruct, fdt.offStrings, fdt.offRsv, last, boot,
            fdt.sizeStrings, fdt.sizeStruct),
                            Block(fdt.bytes, 0, fdt.totalsize)))
  {
    hide RsvEnds, Encodes, Acceptable, Block, WithHeader, Passes, IsRoot;
    var m := Block(fdt.bytes, 0, fdt.totalsize);
    BlockBlock(fdt.bytes, 0, fdt.totalsize, fdt.offRsv, fdt.offStruct - fdt.offRsv);
    BlockBlock(fdt.bytes, 0, fdt.totalsize, fdt.offStruct, fdt.sizeStruct);
    BlockBlock(fdt.bytes, 0, fdt.totalsize, fdt.offStrings, fdt.sizeStrings);
    StoredGood(Header(fdt.totalsize, fdt.offStruct, fdt.offStrings, fdt.offRsv, last, boot, fdt.sizeStrings,
      fdt.sizeStruct), m, fdt.offStruct - fdt.offRsv, fdt.root);
  }
}
