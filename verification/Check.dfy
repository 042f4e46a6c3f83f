/**
 * fdt_check_full (libs/libfdt/fdt_check.c) with fdt_check_header (libs/libfdt/fdt.c): it accepts exactly the
 * blobs whose blocks lie inside them, whose reserve map ends, and whose structure block encodes a tree of the
 * right shape.
 */
module Check {
  import opened Bytes
  import opened Tree
  import opened Encoding
  import opened Positions
  import opened Tags
  import opened FdtRead
  import Programs

  const MAGIC := 0xd00d_feed
  const V1_SIZE := 28
  const V17_SIZE := 40
  const LAST_VERSION := 17
  const BADMAGIC := 9
  const BADVERSION := 10
  const ALIGNMENT := 19

  // ----- The header -----

  function TotalSize(b: Str): nat requires |b| >= V17_SIZE { Get32(b, 4) }
  function OffStruct(b: Str): nat requires |b| >= V17_SIZE { Get32(b, 8) }
  function OffStrings(b: Str): nat requires |b| >= V17_SIZE { Get32(b, 12) }
  function OffRsv(b: Str): nat requires |b| >= V17_SIZE { Get32(b, 16) }
  function Version(b: Str): nat requires |b| >= V1_SIZE { Get32(b, 20) }
  function LastComp(b: Str): nat requires |b| >= V1_SIZE { Get32(b, 24) }
  function SizeStrings(b: Str): nat requires |b| >= V17_SIZE { Get32(b, 32) }
  function SizeStruct(b: Str): nat requires |b| >= V17_SIZE { Get32(b, 36) }

  predicate CheckOff(total: nat, off: nat) {
    V17_SIZE <= off <= total
  }

  /** check_block_, whose sum wraps at 32 bits. */
  predicate CheckBlock(total: nat, base: nat, size: nat) {
    CheckOff(total, base) && (base + size) % U32 >= base && CheckOff(total, (base + size) % U32)
  }

  lemma BlockFits(total: nat, base: nat, size: nat)
    requires total < U32 && base < U32 && size < U32
    ensures CheckBlock(total, base, size) <==> V17_SIZE <= base && base + size <= total
  {
    if base + size >= U32 {
      assert (base + size) % U32 == base + size - U32;
    }
  }

  /**
   * fdt_check_header, from version 17 on, for a blob at the address addr: nothing is read if that is not a multiple of
   * 8.
   */
  function CheckHeader(addr: nat, b: Str): int
    requires |b| >= V17_SIZE
  {
    if addr % 8 != 0 then -ALIGNMENT else HeaderError(b)
  }

  /** What fdt_check_header finds wrong in the header itself. */
  function HeaderError(b: Str): int
    requires |b| >= V17_SIZE
  {
    if Get32(b, 0) != MAGIC then -BADMAGIC
    else if LastComp(b) > LAST_VERSION || Version(b) < LastComp(b) then -BADVERSION
    else if TotalSize(b) < V17_SIZE || TotalSize(b) > INT_MAX then -TRUNCATED
    else if !CheckOff(TotalSize(b), OffRsv(b)) then -TRUNCATED
    else if !CheckBlock(TotalSize(b), OffStruct(b), SizeStruct(b)) then -TRUNCATED
    else if !CheckBlock(TotalSize(b), OffStrings(b), SizeStrings(b)) then -TRUNCATED
    else 0
  }

  /** The header of a blob of this format, which a program of version 17 can read. */
  predicate ReadableHeader(b: Str)
    requires |b| >= V17_SIZE
  {
    b[..4] == [0xd0, 0x0d, 0xfe, 0xed] && LastComp(b) <= LAST_VERSION && LastComp(b) <= Version(b)
  }

  /** A block of size bytes at off lies behind the header and inside the blob. */
  predicate InBlob(b: Str, off: nat, size: nat)
    requires |b| >= V17_SIZE
  {
    V17_SIZE <= off && off + size <= TotalSize(b)
  }

  /**
   * What the header has to say of a blob that can be read: sizes that are none of an int, and blocks inside the blob.
   */
  lemma HeaderIff(b: Str)
    requires |b| >= V17_SIZE
    ensures HeaderError(b) == 0 <==>
            && ReadableHeader(b) && TotalSize(b) <= INT_MAX && InBlob(b, OffRsv(b), 0)
            && InBlob(b, OffStruct(b), SizeStruct(b)) && InBlob(b, OffStrings(b), SizeStrings(b))
    ensures HeaderError(b) == -BADMAGIC <==> b[..4] != [0xd0, 0x0d, 0xfe, 0xed]
    ensures HeaderError(b) == -BADVERSION <==> b[..4] == [0xd0, 0x0d, 0xfe, 0xed] && !ReadableHeader(b)
    ensures HeaderError(b) in {0, -BADMAGIC, -BADVERSION, -TRUNCATED}
  {
    BlockFits(TotalSize(b), OffStruct(b), SizeStruct(b));
    BlockFits(TotalSize(b), OffStrings(b), SizeStrings(b));
  }

  /** The three blocks lie inside the blob, and the blob inside the buffer. */
  ghost predicate Framed(b: Str) {
    && |b| >= V17_SIZE && HeaderError(b) == 0 && TotalSize(b) <= |b|
  }

  lemma FramedBlocks(b: Str)
    requires Framed(b)
    ensures V17_SIZE <= OffRsv(b) <= TotalSize(b) <= |b|
    ensures OffStruct(b) + SizeStruct(b) <= |b| && OffStrings(b) + SizeStrings(b) <= |b| && SizeStruct(b) < INT_MAX
  {
    BlockFits(TotalSize(b), OffStruct(b), SizeStruct(b));
    BlockFits(TotalSize(b), OffStrings(b), SizeStrings(b));
  }

  /** The reserve map of a blob, up to the blob's end. */
  ghost function RsvMap(b: Str): Str
    requires Framed(b)
  {
    FramedBlocks(b);
    b[OffRsv(b)..TotalSize(b)]
  }

  ghost function View(b: Str): (v: Fdt)
    requires Framed(b)
    ensures |v.struct| < INT_MAX
  {
    FramedBlocks(b);
    Fdt(Block(b, OffStruct(b), SizeStruct(b)), Block(b, OffStrings(b), SizeStrings(b)))
  }

  // ----- The shape of an accepted tree -----

  /** Properties and NOPs, then one root with an empty name or none, and after the root nothing at all. */
  predicate Acceptable(f: Forest) {
    match f
    case Nil => true
    case SubF(n, _, r) => n == [] && r == Nil
    case _ => Acceptable(f.rest)
  }

  /** What stands in front of the hole of c leaves room for an acceptable tree; done when the root is complete. */
  predicate Seen(c: Ctx, done: bool) {
    match c
    case Top => !done
    case In(AfterSub(n, _), up) => (if Depth(up) == 0 then done && n == [] else !done) && Seen(up, false)
    case In(InBody(n, _), up) => !done && (Depth(up) == 0 ==> n == []) && Seen(up, false)
    case In(_, up) => !done && Seen(up, false)
  }

  lemma {:induction false} SeenAll(c: Ctx, f: Forest, done: bool)
    requires Depth(c) == 0 && Seen(c, done) && Acceptable(f) && (done ==> f == Nil)
    ensures Acceptable(Plug(c, f))
    decreases c
  {
    if !c.Top? {
      SeenAll(c.up, Fill(c.frame, f), false);
    }
  }

  /** Outside every node of an acceptable tree what follows is acceptable, and nothing follows the root. */
  lemma {:induction false} AcceptAt(c: Ctx, f: Forest)
    requires Depth(c) == 0 && Acceptable(Plug(c, f))
    ensures Acceptable(f) && (!c.Top? && c.frame.AfterSub? ==> f == Nil)
    decreases c
  {
    if !c.Top? {
      AcceptAt(c.up, Fill(c.frame, f));
    }
  }

  // ----- Reading on, tag by tag -----

  /** Nothing is known yet of what follows the nodes that are open. */
  predicate Unread(c: Ctx) {
    c.Top? || ((c.frame.InBody? ==> c.frame.rest == Nil) && Unread(c.up))
  }

  /** What stands in front of the hole once the tag t has been read too. */
  function Grow(c: Ctx, t: Tok): (d: Ctx)
    requires !t.End? && (t.EndNode? ==> Depth(c) > 0)
  {
    match t
    case Nop => In(AfterNop, c)
    case Prop(n, d) => In(AfterProp(n, d), c)
    case Begin(n) => In(InBody(n, Nil), c)
    case EndNode => Leave(c, Nil).c
  }

  lemma {:induction false} LeavePre(c: Ctx, f: Forest)
    requires Unread(c) && Depth(c) > 0
    ensures Pre(Leave(c, f).c) == Pre(c) + Flat(f) + [EndNode] && Unread(Leave(c, f).c)
    decreases c
  {
    hide Plug, Off, Remaining, PostSize, Flat;
    var up := Pre(c.up);
    if c.frame.InBody? {
      Associate(up, [Begin(c.frame.name)], Flat(f), [EndNode]);
    } else {
      LeavePre(c.up, Fill(c.frame, f));
      FlatFill(c.frame, f);
      assert FramePre(c.frame) + Flat(f) + [] == FramePre(c.frame) + Flat(f);
      Associate(up, FramePre(c.frame), Flat(f), [EndNode]);
    }
  }

  lemma {:induction false} LeaveSeen(c: Ctx, f: Forest)
    requires Depth(c) > 0 && Seen(c, false)
    ensures Seen(Leave(c, f).c, Depth(c) == 1)
    decreases c
  {
    if !c.frame.InBody? {
      LeaveSeen(c.up, Fill(c.frame, f));
    }
  }

  lemma GrowIs(c: Ctx, t: Tok)
    requires Unread(c) && !t.End? && (t.EndNode? ==> Depth(c) > 0)
    ensures Pre(Grow(c, t)) == Pre(c) + [t] && Unread(Grow(c, t)) && Off(Grow(c, t)) == Off(c) + TokSize(t)
    ensures Depth(Grow(c, t)) == Depth(c) + if t.Begin? then 1 else if t.EndNode? then -1 else 0
  {
    if t.EndNode? {
      LeavePre(c, Nil);
      assert Pre(c) + [] == Pre(c);
    }
  }

  lemma GrowSeen(c: Ctx, t: Tok)
    requires !t.End? && (t.EndNode? ==> Depth(c) > 0) && Seen(c, false) && (t.Begin? && Depth(c) == 0 ==> t.name == [])
    ensures Seen(Grow(c, t), t.EndNode? && Depth(c) == 1)
  {
    if t.EndNode? {
      LeaveSeen(c, Nil);
    }
  }

  /** The tag that fdt_next_tag has read at start, pname being the name of a property. */
  function TokAt(b: Str, start: nat, pname: Str): (t: Tok)
    requires TagStep(b, start).1 >= 0
  {
    var tag := TagStep(b, start).0;
    if tag == BEGIN_NODE then Begin(b[start + 4..NulFrom(b, start + 4)])
    else if tag == PROP then Prop(pname, b[start + 12..start + 12 + Get32(b, start + 4)])
    else if tag == END_NODE then EndNode
    else if tag == NOP then Nop
    else End
  }

  /** A tag that fdt_next_tag accepts is the encoding of a tag, if its padding is there and a property's name is. */
  lemma TokReps(strs: Str, b: Str, start: nat, pname: Str)
    requires Aligned(start) && TagStep(b, start).1 >= 0
    requires TagStep(b, start).0 == PROP ==> IsStringAt(strs, Get32(b, start + 8), pname)
    ensures var t := TokAt(b, start, pname); var n := TagStep(b, start).1;
            n == start + TokSize(t) && TagOf(t) == TagStep(b, start).0 && (n <= |b| ==> Reps(strs, b[start..n], t))
  {
    var tag := TagStep(b, start).0;
    if tag == BEGIN_NODE {
      BeginReps(strs, b, start);
    } else if tag == PROP {
      PropReps(strs, b, start, pname);
    } else {
      AlignShift(start, 4);
      if start + 4 <= |b| {
        Get32Slice(b, start, start + 4, 0);
      }
    }
  }

  lemma BeginReps(strs: Str, b: Str, start: nat)
    requires Aligned(start) && TagStep(b, start).1 >= 0 && TagStep(b, start).0 == BEGIN_NODE
    ensures var t := TokAt(b, start, []); var n := TagStep(b, start).1;
            n == start + TokSize(t) && (n <= |b| ==> Reps(strs, b[start..n], t))
  {
    var o := start + 4;
    var e, n := NulFrom(b, o), TagStep(b, start).1;
    AlignShift(o, e - o + 1);
    if n <= |b| {
      Get32Slice(b, start, n, 0);
      SliceSlice(b, start, n, 4, 4 + (e - o));
      assert b[start..n][4 + (e - o)] == b[e];
    }
  }

  lemma PropReps(strs: Str, b: Str, start: nat, pname: Str)
    requires Aligned(start) && TagStep(b, start).1 >= 0 && TagStep(b, start).0 == PROP
    requires IsStringAt(strs, Get32(b, start + 8), pname)
    ensures var t := TokAt(b, start, pname); var n := TagStep(b, start).1;
            n == start + TokSize(t) && (n <= |b| ==> Reps(strs, b[start..n], t))
  {
    hide IsStringAt;
    var len, n := Get32(b, start + 4), TagStep(b, start).1;
    AlignShift(start + 12, len);
    if n <= |b| {
      Get32Slice(b, start, n, 0);
      Get32Slice(b, start, n, 4);
      Get32Slice(b, start, n, 8);
      SliceSlice(b, start, n, 12, 12 + len);
    }
  }

  /** The bytes up to off have been read as the tags in front of the hole of c. */
  ghost predicate ReadTo(v: Fdt, c: Ctx, off: int) {
    && Unread(c) && off == Off(c) && Aligned(off)
    && (off <= |v.struct| ==> RepAll(v.strs, v.struct[..off], Pre(c)))
  }

  lemma ReadOn(v: Fdt, c: Ctx, off: int, pname: Str)
    requires ReadTo(v, c, off) && TagStep(v.struct, off).1 >= 0
    requires TagStep(v.struct, off).0 == PROP ==> IsStringAt(v.strs, Get32(v.struct, off + 8), pname)
    ensures TagOf(TokAt(v.struct, off, pname)) == TagStep(v.struct, off).0
    ensures var t := TokAt(v.struct, off, pname); var n := TagStep(v.struct, off).1;
            !t.End? && (t.EndNode? ==> Depth(c) > 0) ==>
              ReadTo(v, Grow(c, t), n) && Depth(Grow(c, t)) == Depth(c) + if t.Begin? then 1 else if t.EndNode? then -1
                else 0
  {
    hide TagStep, Reps, RepAll, IsStringAt, TokAt, TokSize, Grow, Pre, Off, Depth;
    TokReps(v.strs, v.struct, off, pname);
    var t, n := TokAt(v.struct, off, pname), TagStep(v.struct, off).1;
    if !t.End? && (t.EndNode? ==> Depth(c) > 0) {
      GrowIs(c, t);
      TokAligned(t);
      AlignedSum(off, TokSize(t));
      if n <= |v.struct| {
        RepOne(v.strs, v.struct[off..n], t);
        RepJoin(v.strs, v.struct[..off], Pre(c), v.struct[off..n], [t]);
        assert v.struct[..off] + v.struct[off..n] == v.struct[..n];
      }
    }
  }

  /** At the end tag, with no node open, all that has been read is a tree. */
  lemma ReadAll(v: Fdt, c: Ctx, off: int, done: bool)
    requires ReadTo(v, c, off) && TagStep(v.struct, off) == (END, off + 4) && Depth(c) == 0 && Seen(c, done)
             && |v.struct| < INT_MAX
    ensures Encodes(v, Plug(c, Nil)) && Acceptable(Plug(c, Nil))
  {
    hide RepAll, Off, Depth, Seen, Pre, Plug, Unread, FSize, Size, Flat, Post;
    SeenAll(c, Nil, done);
    FlatPlug(c, Nil);
    PostTags(c);
    OffPre(c);
    OffWhole(c);
    WholeRead(v, c, off);
    EncodesIs(v, Plug(c, Nil), off + 4);
  }

  lemma OffWhole(c: Ctx)
    requires Depth(c) == 0
    ensures FSize(Plug(c, Nil)) == Off(c)
  {
    RemainingIs(Pos(c, Nil));
    PostTags(c);
  }

  lemma WholeRead(v: Fdt, c: Ctx, off: int)
    requires ReadTo(v, c, off) && TagStep(v.struct, off) == (END, off + 4) && Depth(c) == 0
    ensures off + 4 <= |v.struct| && RepAll(v.strs, v.struct[..off + 4], Pre(c) + Flat(Nil) + Post(c) + [End])
  {
    hide RepAll, Off, Pre, Unread, Post;
    PostTags(c);
    assert Pre(c) + [] + [] == Pre(c);
    Get32Slice(v.struct, off, off + 4, 0);
    RepOne(v.strs, v.struct[off..off + 4], End);
    RepJoin(v.strs, v.struct[..off], Pre(c), v.struct[off..off + 4], [End]);
    assert v.struct[..off] + v.struct[off..off + 4] == v.struct[..off + 4];
  }

  /** The structure block encodes a tree of the right shape. */
  ghost predicate WellTagged(v: Fdt) {
    exists f :: Encodes(v, f) && Acceptable(f)
  }

  /** In a sound blob: where the loop has arrived. */
  ghost predicate OnTrack(v: Fdt, q: Pos, off: int, depth: int, expectEnd: bool) {
    At(v, q, off) && Acceptable(Whole(q)) && depth == Depth(q.c) && (expectEnd ==> depth == 0 && q.f == Nil)
  }

  /** On track, no check fails, and the next tag keeps on track. */
  lemma TrackOn(v: Fdt, q: Pos, off: int, depth: int, expectEnd: bool)
    requires OnTrack(v, q, off, depth, expectEnd)
    ensures var (tag, n) := TagStep(v.struct, off); var t := TagAt(q);
            && n > 0 && tag == TagOf(t) && (expectEnd ==> t.End?) && (t.EndNode? <==> q.f == Nil && depth > 0)
               && (t.End? ==> depth == 0)
            && (t.Begin? && depth == 0 ==> t.name == [])
            && (t.Begin? ==> v.struct[off + 4..NulFrom(v.struct, off + 4)] == t.name)
            && (t.Prop? ==> IsStringAt(v.strs, Get32(v.struct, off + 8), t.pname))
            && (!t.End? ==> OnTrack(v, Next(q), n, depth + (if t.Begin? then 1 else if t.EndNode? then -1 else 0),
               t.EndNode? && depth == 1))
  {
    hide Encodes, Whole, Off, TagStep, IsStringAt, Reps, NulFrom, Get32, Acceptable, TokSize;
    TagStepAt(v, q);
    OnTrackShape(q);
    if q.f.SubF? {
      NameHere(v, q);
    } else if q.f.PropF? {
      PropHere(v, q);
    } else if TagAt(q).EndNode? {
      OnTrackLeaves(q);
    }
  }

  lemma OnTrackShape(q: Pos)
    requires Acceptable(Whole(q))
    ensures Depth(q.c) == 0 && q.f.SubF? ==> q.f.name == []
  {
    if Depth(q.c) == 0 {
      AcceptAt(q.c, q.f);
    }
  }

  lemma OnTrackLeaves(q: Pos)
    requires Acceptable(Whole(q)) && TagAt(q).EndNode?
    ensures Depth(q.c) == 1 ==> Next(q).f == Nil
  {
    if Depth(q.c) == 1 {
      LeftSub(q.c, q.f);
      AcceptAt(Next(q).c, Next(q).f);
    }
  }

  lemma LeftSub(c: Ctx, f: Forest)
    requires Depth(c) > 0
    ensures !Leave(c, f).c.Top? && Leave(c, f).c.frame.AfterSub?
    decreases c
  {
  }

  /** No string starts at offset i of the strings block. */
  ghost predicate NoString(strs: Str, i: nat) {
    forall s :: !IsStringAt(strs, i, s)
  }

  /** fdt_getprop_by_offset of a property that fdt_next_tag has accepted: its name, if it has one. */
  method PropName(v: Fdt, offset: nat) returns (r: Option<Str>, err: int)
    requires TagStep(v.struct, offset).0 == PROP && TagStep(v.struct, offset).1 >= 0
    ensures r.Some? ==> err == 0 && IsStringAt(v.strs, Get32(v.struct, offset + 8), r.value)
    ensures r.None? ==> err < 0 && NoString(v.strs, Get32(v.struct, offset + 8))
  {
    var nameoff := Get32(v.struct, offset + 8);
    r := GetString(v, nameoff);
    err := if r.Some? then 0 else if nameoff >= |v.strs| then -BADOFFSET else -TRUNCATED;
  }

  lemma StepForward(b: Str, start: nat, pname: Str)
    requires TagStep(b, start).1 >= 0
    ensures start + 4 <= |b| && TagStep(b, start).1 >= start + 4
    ensures TagStep(b, start).0 in {BEGIN_NODE, END_NODE, PROP, NOP, END}
    ensures var t := TokAt(b, start, pname);
            TagStep(b, start).0 == TagOf(t) && (t.Begin? ==> t.name == b[start + 4..NulFrom(b, start + 4)])
  {
  }

  /** The switch of fdt_check_full on the tag at offset: the error, or the state of the loop after it. */
  method CheckTag(v: Fdt, offset: nat, tag: nat, next: int, depth0: nat, ghost c0: Ctx, ghost q0: Pos)
    returns (err: int, depth: nat, expectEnd: bool, ghost c: Ctx, ghost q: Pos)
    requires (tag, next) == TagStep(v.struct, offset) && next >= 0 && tag != END && |v.struct| < INT_MAX
    requires ReadTo(v, c0, offset) && Seen(c0, false) && depth0 == Depth(c0) && 4 * depth0 <= offset
    ensures err <= 0
    ensures err == 0 ==> ReadTo(v, c, next) && Seen(c, expectEnd) && depth == Depth(c) && 4 * depth <= next
                         && (expectEnd ==> depth == 0)
    ensures OnTrack(v, q0, offset, depth0, false) ==> err == 0 && OnTrack(v, q, next, depth, expectEnd)
  {
    hide Encodes, Whole, Off, TagStep, IsStringAt, Reps, NulFrom, Get32, Acceptable, TokSize, Grow, ReadTo, OnTrack,
      Seen, TokAt, Unread;
    err, depth, expectEnd, c, q := 0, depth0, false, c0, q0;
    ghost var pname: Str := [];
    if OnTrack(v, q0, offset, depth0, false) {
      TrackOn(v, q0, offset, depth0, false);
    }
    StepForward(v.struct, offset, pname);
    if tag == BEGIN_NODE {
      depth := depth + 1;
      if depth > INT_MAX {
        return -BADSTRUCTURE, depth, expectEnd, c, q;
      }
      if depth == 1 {
        var e := SkipName(v, offset + 4);
        if e != offset + 4 {
          return -BADSTRUCTURE, depth, expectEnd, c, q;
        }
      }
    } else if tag == END_NODE {
      if depth == 0 {
        return -BADSTRUCTURE, depth, expectEnd, c, q;
      }
      depth := depth - 1;
      if depth == 0 {
        expectEnd := true;
      }
    } else if tag == PROP {
      var name;
      name, err := PropName(v, offset);
      if err < 0 {
        return;
      }
      pname := name.value;
    } else if tag != NOP {
      return -INTERNAL, depth, expectEnd, c, q;
    }
    StepForward(v.struct, offset, pname);
    ReadOn(v, c0, offset, pname);
    ghost var t := TokAt(v.struct, offset, pname);
    GrowSeen(c0, t);
    c, q := Grow(c0, t), if OnTrack(v, q0, offset, depth0, false) && !TagAt(q0).End? then Next(q0) else q0;
  }

  /** The loop of fdt_check_full: it accepts exactly the structure blocks that encode a tree of the right shape. */
  method CheckStruct(v: Fdt) returns (err: int)
    requires |v.struct| < INT_MAX
    ensures err <= 0 && (err == 0 <==> WellTagged(v))
  {
    hide Encodes, Whole, TagStep, ReadTo, OnTrack, Acceptable, Seen, Depth;
    var nextoffset, depth, expectEnd := 0, 0, false;
    ghost var c, q := Top, Pos(Top, Nil);
    if WellTagged(v) {
      q := Start(v);
    }
    Begun(v);
    while true
      invariant 0 <= nextoffset && ReadTo(v, c, nextoffset) && Seen(c, expectEnd) && depth == Depth(c)
                && 0 <= 4 * depth <= nextoffset
      invariant expectEnd ==> depth == 0
      invariant WellTagged(v) ==> OnTrack(v, q, nextoffset, depth, expectEnd)
      decreases |v.struct| - nextoffset
    {
      var offset := nextoffset;
      var tag;
      tag, nextoffset := NextTag(v, offset);
      if WellTagged(v) {
        TrackOn(v, q, offset, depth, expectEnd);
      }
      if nextoffset < 0 {
        return nextoffset;
      }
      if expectEnd && tag != END {
        return -BADSTRUCTURE;
      }
      if tag == END {
        if depth != 0 {
          return -BADSTRUCTURE;
        }
        EndsHere(v, c, offset, expectEnd);
        return 0;
      }
      StepForward(v.struct, offset, []);
      err, depth, expectEnd, c, q := CheckTag(v, offset, tag, nextoffset, depth, c, q);
      if err < 0 {
        return;
      }
    }
  }

  lemma Start(v: Fdt) returns (q: Pos)
    requires WellTagged(v)
    ensures OnTrack(v, q, 0, 0, false)
  {
    var f :| Encodes(v, f) && Acceptable(f);
    q := Pos(Top, f);
  }

  lemma Begun(v: Fdt)
    ensures ReadTo(v, Top, 0) && Seen(Top, false) && Depth(Top) == 0
  {
    assert v.struct[..0] == [];
  }

  lemma EndsHere(v: Fdt, c: Ctx, off: int, done: bool)
    requires off >= 0 && ReadTo(v, c, off) && TagStep(v.struct, off).0 == END && TagStep(v.struct, off).1 >= 0
    requires Depth(c) == 0 && Seen(c, done) && |v.struct| < INT_MAX
    ensures WellTagged(v)
  {
    hide TagStep, RepAll, Off, Pre, Depth, Seen, Unread, WellTagged;
    EndStep(v.struct, off);
    ReadAll(v, c, off, done);
    IsSound(v, Plug(c, Nil));
  }

  lemma EndStep(b: Str, off: nat)
    requires Aligned(off) && TagStep(b, off).0 == END && TagStep(b, off).1 >= 0
    ensures TagStep(b, off) == (END, off + 4)
  {
    AlignShift(off, 4);
  }

  lemma IsSound(v: Fdt, f: Forest)
    requires Encodes(v, f) && Acceptable(f)
    ensures WellTagged(v)
  {
  }

  // ----- The whole check -----

  /** The reserve map ends, with an entry of size 0. */
  ghost predicate RsvEnds(b: Str) {
    exists n: nat :: 16 * n + 16 <= |b| && Programs.MemRsv(b, n).size == 0
  }

  /** fdt_check_full accepts a buffer at the address addr exactly if all of it is as the format demands. */
  method CheckFull(addr: nat, buf: Str) returns (err: int)
    requires |buf| >= V1_SIZE ==> Version(buf) >= LAST_VERSION
    ensures err <= 0
    ensures addr % 8 != 0 ==> err == if |buf| < V17_SIZE then -TRUNCATED else -ALIGNMENT
    ensures err == 0 <==> addr % 8 == 0 && Framed(buf) && RsvEnds(RsvMap(buf)) && WellTagged(View(buf))
  {
    if |buf| < V1_SIZE {
      return -TRUNCATED;
    }
    if |buf| < V17_SIZE {
      return -TRUNCATED;
    }
    err := CheckHeader(addr, buf);
    if err != 0 {
      return;
    }
    if |buf| < TotalSize(buf) {
      return -TRUNCATED;
    }
    FramedBlocks(buf);
    var num := Programs.NumMemRsv(buf[OffRsv(buf)..TotalSize(buf)]);
    if num < 0 {
      return num;
    }
    err := CheckStruct(Fdt(Block(buf, OffStruct(buf), SizeStruct(buf)), Block(buf, OffStrings(buf), SizeStrings(buf))));
  }

  /** An accepted blob whose first tag begins a node encodes one tree, which has one root. */
  lemma AcceptedRoot(v: Fdt) returns (f: Forest)
    requires WellTagged(v) && TagStep(v.struct, 0).0 == BEGIN_NODE
    ensures Encodes(v, f) && IsRoot(f) && f.name == []
    ensures forall g :: Encodes(v, g) ==> g == f
  {
    hide Encodes, TagStep, FSize;
    f :| Encodes(v, f) && Acceptable(f);
    TagStepAt(v, Pos(Top, f));
    forall g | Encodes(v, g)
      ensures g == f
    {
      EncodesUnique(v, f, g);
    }
  }
}
