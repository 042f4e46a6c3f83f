/**
 * The sequential writer (libs/libfdt/fdt_sw.c): reserve entries, then tags upwards and strings downwards from the
 * end of the buffer, and at last the relocation that makes a blob of it.
 */
module FdtSw {
  import opened Bytes
  import opened Tree
  import opened Encoding
  import opened Positions
  import opened Tags
  import opened SwFormat
  import opened FdtRw

  const HEADER_SIZE := 48  // the header, aligned for reserve entries
  const U64: int := 0x1_0000_0000_0000_0000

  /** One entry of the memory reservation block. */
  datatype Rsv = Rsv(addr: nat, size: nat)

  function Put64(v: nat): (b: Str)
    requires v < U64
    ensures |b| == 8
  {
    Put32(v / U32) + Put32(v % U32)
  }

  predicate IsRsv(r: Rsv) {
    r.addr < U64 && r.size < U64
  }

  predicate AllRsv(rs: seq<Rsv>) {
    forall r | r in rs :: IsRsv(r)
  }

  /** The bytes of reserve entries, one after the other. */
  function RsvBytes(rs: seq<Rsv>): (b: Str)
    requires AllRsv(rs)
    ensures |b| == 16 * |rs|
  {
    if rs == [] then [] else
      var r := rs[|rs| - 1];
      assert r in rs && IsRsv(r);
      RsvBytes(rs[..|rs| - 1]) + (Put64(r.addr) + Put64(r.size))
  }

  /**
   * The unsigned comparison by which fdt_add_string_ decides that a string of which offset bytes would be used fits.
   */
  predicate StringFits(totalsize: nat, offset: nat, top: nat)
    requires totalsize < U32 && offset < U32
  {
    (if offset <= totalsize then totalsize - offset else totalsize + U32 - offset) >= top
  }

  /** The comparison is right exactly for strings that are not longer than the whole buffer. */
  lemma StringFitsExactly(totalsize: nat, offset: nat, top: nat)
    requires totalsize <= INT_MAX && offset <= INT_MAX && 0 < top <= totalsize
    ensures (StringFits(totalsize, offset, top) <==> top + offset <= totalsize) <==> offset <= totalsize
  {
  }

  class Writer {
    const mem: array<byte>
    var base: nat
    var finished: bool
    var dedup: bool
    var totalsize: nat
    var offStruct: nat
    var sizeStruct: nat
    var offStrings: nat
    var sizeStrings: nat
    ghost var bytes: Str
    ghost var rsv: seq<Rsv>
    ghost var toks: seq<Tok>

    /** The blocks do not overlap: reserve entries and tags from the front, strings from the back. */
    ghost predicate Layout()
      reads this, mem
    {
      && mem[..] == bytes
      && base + totalsize <= |bytes| && totalsize <= INT_MAX
      && HEADER_SIZE <= offStruct && offStruct + sizeStruct + sizeStrings <= totalsize
    }

    ghost function RsvBlock(): Str
      requires Layout()
      reads this, mem
    {
      Block(bytes, base + HEADER_SIZE, offStruct - HEADER_SIZE)
    }

    ghost function Struct(): Str
      requires Layout()
      reads this, mem
    {
      Block(bytes, base + offStruct, sizeStruct)
    }

    ghost function Strs(): (s: Str)
      requires Layout()
      ensures |s| == sizeStrings
      reads this, mem
    {
      Block(bytes, base + totalsize - sizeStrings, sizeStrings)
    }

    /** The writer's state between two calls: no end tag has been written. */
    ghost predicate Valid()
      reads this, mem
    {
      Half() && End !in toks
    }

    /** The buffer holds the reserve entries rsv and the tags toks, and the blob is not finished. */
    ghost predicate Half()
      reads this, mem
    {
      && Layout() && !finished
      && AllRsv(rsv) && RsvBlock() == RsvBytes(rsv)
      && (offStrings == 0 || offStrings == totalsize)
      && (offStrings == 0 ==> toks == [] && sizeStruct == 0 && sizeStrings == 0)
      && SwRepAll(Strs(), Struct(), toks)
    }

    ghost predicate Room(n: nat)
      reads this
    {
      offStruct + sizeStruct + sizeStrings + n <= totalsize
    }

    constructor Attach(ram: array<byte>)
      ensures mem == ram && !finished && bytes == ram[..]
    {
      mem := ram;
      finished, dedup, base, totalsize, offStruct, sizeStruct, offStrings, sizeStrings := false, true, 0, 0, 0, 0, 0, 0;
      bytes, rsv, toks := ram[..], [], [];
    }

    method Poke(at: nat, d: Str)
      requires mem[..] == bytes && at + |d| <= mem.Length
      modifies this`bytes, mem
      ensures mem[..] == bytes && bytes == Overwrite(old(bytes), at, d)
    {
      forall i | 0 <= i < |d| {
        mem[at + i] := d[i];
      }
      bytes := mem[..];
    }

    /** memmove. */
    method Move(dst: nat, src: nat, n: nat)
      requires mem[..] == bytes && dst + n <= mem.Length && src + n <= mem.Length
      modifies this`bytes, mem
      ensures mem[..] == bytes && bytes == Overwrite(old(bytes), dst, Block(old(bytes), src, n))
    {
      Poke(dst, mem[..][src..src + n]);
    }

    /** fdt_create_with_flags. */
    method Create(buf: nat, bufsize: int, noDedup: bool) returns (err: int)
      requires buf + bufsize <= mem.Length && bufsize <= INT_MAX && mem[..] == bytes
      modifies this, mem
      ensures err == if bufsize < HEADER_SIZE then -NOSPACE else 0
      ensures err == 0 ==> Valid() && rsv == [] && toks == [] && offStrings == 0 && base == buf && totalsize == bufsize
                           && dedup == !noDedup
    {
      hide Overwrite, Block;
      if bufsize < HEADER_SIZE {
        return -NOSPACE;
      }
      Poke(buf, seq(bufsize, _ => 0));
      base, finished, dedup, totalsize := buf, false, !noDedup, bufsize;
      offStruct, sizeStruct, offStrings, sizeStrings := HEADER_SIZE, 0, 0, 0;
      rsv, toks := [], [];
      err := 0;
    }

    // ----- Reserve entries -----

    /** fdt_add_reservemap_entry. */
    method AddReservemapEntry(r: Rsv) returns (err: int)
      requires Valid() && IsRsv(r)
      modifies this`offStruct, this`bytes, this`rsv, mem
      ensures Valid()
      ensures err == if offStrings != 0 then -BADSTATE else if old(offStruct) + 16 <= totalsize then 0 else -NOSPACE
      ensures err == 0 ==> rsv == old(rsv) + [r] && offStruct == old(offStruct) + 16
      ensures err != 0 ==> rsv == old(rsv) && offStruct == old(offStruct)
    {
      hide Overwrite, Put64, Put32, RsvBytes, AllRsv, Block, SwRepAll;
      if offStrings != 0 {
        return -BADSTATE;
      }
      if offStruct + 16 > totalsize {
        return -NOSPACE;
      }
      var d := Put64(r.addr) + Put64(r.size);
      ghost var m := bytes;
      Poke(base + offStruct, d);
      OneMoreEntry(m, bytes, base + HEADER_SIZE, base + offStruct, rsv, r);
      offStruct := offStruct + 16;
      rsv := rsv + [r];
      err := 0;
    }

    /** fdt_finish_reservemap. */
    method FinishReservemap() returns (err: int)
      requires Valid()
      modifies this`offStruct, this`offStrings, this`bytes, this`rsv, mem
      ensures Valid()
      ensures err == if old(offStrings) != 0 then -BADSTATE else if old(offStruct) + 16 <= totalsize then 0
              else -NOSPACE
      ensures err == 0 ==> rsv == old(rsv) + [Rsv(0, 0)] && offStrings == totalsize
      ensures err != 0 ==> rsv == old(rsv) && offStrings == old(offStrings) && offStruct == old(offStruct)
    {
      hide RsvBytes, AllRsv, Block, SwRepAll;
      err := AddReservemapEntry(Rsv(0, 0));
      if err != 0 {
        return;
      }
      offStrings := totalsize;
    }

    // ----- Tags -----

    /** fdt_grab_space_: the offset in the structure block of len bytes more, if there is room for them. */
    method GrabSpace(len: nat) returns (r: Option<nat>)
      requires Layout()
      modifies this`sizeStruct
      ensures Layout()
      ensures r == if old(Room(len)) then Some(old(sizeStruct)) else None
      ensures sizeStruct == old(sizeStruct) + if r.Some? then len else 0
    {
      var offset := sizeStruct;
      var spaceleft := totalsize - offStruct - sizeStrings;
      if offset + len > spaceleft {
        return None;
      }
      sizeStruct := offset + len;
      r := Some(offset);
    }

    /** The tag t, len bytes that start with d, at the end of the structure block, if there is room for it. */
    method PutTag(len: nat, d: Str, ghost t: Tok) returns (err: int)
      requires Half() && offStrings == totalsize && len == TokSize(t) && |d| <= len && Starts(sizeStrings, Strs(), d, t)
      modifies this`sizeStruct, this`bytes, this`toks, mem
      ensures Half() && Strs() == old(Strs())
      ensures err == if old(Room(len)) then 0 else -NOSPACE
      ensures toks == if err == 0 then old(toks) + [t] else old(toks)
      ensures sizeStruct == old(sizeStruct) + if err == 0 then len else 0
    {
      hide Overwrite, Put32, RsvBytes, AllRsv, Block, SwRepAll, SwReps, Starts, TokSize;
      ghost var m, strs := bytes, Strs();
      var at := GrabSpace(len);
      if at.None? {
        return -NOSPACE;
      }
      Poke(base + offStruct + at.value, d);
      Emitted(m, bytes, base + HEADER_SIZE, base + offStruct, at.value, len, base + totalsize - sizeStrings,
        sizeStrings, d);
      ghost var b := Block(bytes, base + offStruct + at.value, len);
      StartsIs(sizeStrings, strs, d, t, b);
      SwJoin(strs, Block(m, base + offStruct, at.value), toks, b, t);
      toks := toks + [t];
      err := 0;
    }

    /** fdt_begin_node. */
    method BeginNode(name: Str) returns (err: int)
      requires Valid() && 0 !in name
      modifies this`sizeStruct, this`bytes, this`toks, mem
      ensures Valid()
      ensures err == if offStrings != totalsize then -BADSTATE else if old(Room(TokSize(Begin(name)))) then 0
              else -NOSPACE
      ensures toks == if err == 0 then old(toks) + [Begin(name)] else old(toks)
      ensures sizeStruct == old(sizeStruct) + if err == 0 then TokSize(Begin(name)) else 0
      ensures Strs() == old(Strs())
    {
      hide Put32, RsvBytes, AllRsv, Block, SwRepAll, SwReps, Align4, Room, Starts;
      if offStrings != totalsize {
        return -BADSTATE;
      }
      BeginStarts(sizeStrings, Strs(), name);
      err := PutTag(4 + Align4(|name| + 1), Put32(BEGIN_NODE) + name + [0], Begin(name));
    }

    /** fdt_end_node. */
    method EndNode() returns (err: int)
      requires Valid()
      modifies this`sizeStruct, this`bytes, this`toks, mem
      ensures Valid()
      ensures err == if offStrings != totalsize then -BADSTATE else if old(Room(4)) then 0 else -NOSPACE
      ensures toks == if err == 0 then old(toks) + [Tok.EndNode] else old(toks)
      ensures sizeStruct == old(sizeStruct) + if err == 0 then 4 else 0
      ensures Strs() == old(Strs())
    {
      hide Put32, RsvBytes, AllRsv, Block, SwRepAll, SwReps, Room, Starts;
      if offStrings != totalsize {
        return -BADSTATE;
      }
      TagStarts(sizeStrings, Strs(), Tok.EndNode);
      err := PutTag(4, Put32(END_NODE), Tok.EndNode);
    }

    // ----- Properties -----

    /** fdt_add_string_: how far from the end of the buffer the string s now starts, or 0 if there is no room. */
    method AddString(s: Str) returns (k: nat)
      requires Layout() && sizeStrings + |s| + 1 <= totalsize
      modifies this`sizeStrings, this`bytes, mem
      ensures Layout() && Struct() == old(Struct()) && RsvBlock() == old(RsvBlock())
      ensures k == if old(Room(|s| + 1)) then old(sizeStrings) + |s| + 1 else 0
      ensures Strs() == if k != 0 then s + [0] + old(Strs()) else old(Strs())
    {
      hide Overwrite, Block;
      ghost var m, old0 := bytes, sizeStrings;
      var offset := sizeStrings + |s| + 1;
      if !StringFits(totalsize, offset, offStruct + sizeStruct) {
        return 0;
      }
      Poke(base + totalsize - offset, s + [0]);
      sizeStrings := offset;
      NewString(m, bytes, base + HEADER_SIZE, base + offStruct, sizeStruct, base + totalsize, old0, s + [0]);
      k := offset;
    }

    /** fdt_find_add_string_, or fdt_add_string_ alone if names are not to be shared. */
    method FindAddString(s: Str) returns (k: nat, added: bool)
      requires Layout() && 0 !in s && ShortEnough(s)
      modifies this`sizeStrings, this`bytes, mem
      ensures Layout() && Struct() == old(Struct()) && RsvBlock() == old(RsvBlock())
      ensures k == 0 <==> !old(Shared(s)) && !old(Room(|s| + 1))
      ensures k != 0 ==> k <= sizeStrings && IsStringAt(Strs(), sizeStrings - k, s)
      ensures added == !old(Shared(s)) && sizeStrings == old(sizeStrings) + (if added && k != 0 then |s| + 1 else 0)
      ensures Strs() == if added && k != 0 then s + [0] + old(Strs()) else old(Strs())
    {
      hide Block, Occurs;
      if dedup {
        var strs := mem[..][base + totalsize - sizeStrings..base + totalsize];
        assert strs == Strs() by { TailBlock(bytes, base + totalsize, sizeStrings); }
        var p := FindString(strs, s);
        if p.Some? {
          OccursAt(strs, p.value, s);
          return sizeStrings - p.value, false;
        }
      }
      k := AddString(s);
      added := true;
      if k != 0 {
        FirstString(s, old(Strs()));
      }
    }

    /** The name is already in the strings block and may be used again. */
    ghost predicate Shared(s: Str)
      requires Layout()
      reads this, mem
    {
      dedup && Occurs(Strs(), s)
    }

    /** What the writer asks of a name: that it is not longer than the buffer. */
    ghost predicate ShortEnough(s: Str)
      requires Layout()
      reads this, mem
    {
      Shared(s) || sizeStrings + |s| + 1 <= totalsize
    }

    method IsShortEnough(s: Str) returns (r: bool)
      requires Layout() && 0 !in s
      ensures r == ShortEnough(s)
    {
      hide Block, Occurs;
      r := sizeStrings + |s| + 1 <= totalsize;
      if dedup && !r {
        var strs := mem[..][base + totalsize - sizeStrings..base + totalsize];
        assert strs == Strs() by { TailBlock(bytes, base + totalsize, sizeStrings); }
        var p := FindString(strs, s);
        if p.Some? {
          OccursAt(strs, p.value, s);
        }
        r := p.Some?;
      }
    }

    /** The bytes that a property takes, with its name if that is new. */
    ghost function Need(name: Str, len: nat): nat
      requires Layout()
      reads this, mem
    {
      (if Shared(name) then 0 else |name| + 1) + 12 + Align4(len)
    }

    /**
     * fdt_property_placeholder: a property whose value is what happens to be in the buffer, at offset valp of the
     * structure block.
     */
    method PropertyPlaceholder(name: Str, len: nat) returns (err: int, valp: nat)
      requires Valid() && 0 !in name && len < INT_MAX && ShortEnough(name)
      modifies this`sizeStruct, this`sizeStrings, this`bytes, this`toks, mem
      ensures Valid()
      ensures err == if offStrings != totalsize then -BADSTATE else if old(Room(Need(name, len))) then 0 else -NOSPACE
      ensures err == 0 ==> valp + Align4(len) == sizeStruct
                           && toks == old(toks) + [Prop(name, Block(Struct(), valp, len))]
      ensures err == 0 ==> valp == old(sizeStruct) + 12
      ensures err != 0 ==> toks == old(toks) && sizeStruct == old(sizeStruct) && Strs() == old(Strs())
    {
      hide Overwrite, Put32, RsvBytes, AllRsv, Block, SwRepAll, Align4, IsStringAt, Shared;
      valp := 0;
      if offStrings != totalsize {
        return -BADSTATE, valp;
      }
      ghost var strs0 := Strs();
      var nameoff, added := FindAddString(name);
      if nameoff == 0 {
        return -NOSPACE, valp;
      }
      SameNames(if added then name + [0] else [], strs0, Strs(), Struct(), toks);
      var at := EmitProperty(name, len, nameoff);
      if at.None? {
        if added {
          DelLastString(name);
          assert (name + [0] + strs0)[|name| + 1..] == strs0;
        }
        return -NOSPACE, valp;
      }
      err, valp := 0, at.value;
    }

    /** The part of fdt_property_placeholder after the name has been found or written, nameoff bytes from the end. */
    method EmitProperty(name: Str, len: nat, nameoff: nat) returns (valp: Option<nat>)
      requires Valid() && offStrings == totalsize && len < INT_MAX
      requires 0 < nameoff <= sizeStrings && IsStringAt(Strs(), sizeStrings - nameoff, name)
      modifies this`sizeStruct, this`bytes, this`toks, mem
      ensures Valid() && Strs() == old(Strs())
      ensures valp == if old(Room(12 + Align4(len))) then Some(old(sizeStruct) + 12) else None
      ensures valp.Some? ==> valp.value + Align4(len) == sizeStruct
                             && toks == old(toks) + [Prop(name, Block(Struct(), valp.value, len))]
      ensures valp.None? ==> toks == old(toks) && sizeStruct == old(sizeStruct) && Struct() == old(Struct())
    {
      hide Overwrite, Put32, RsvBytes, AllRsv, Block, SwRepAll, Align4, IsStringAt, SwReps;
      ghost var m, strs := bytes, Strs();
      var at := GrabSpace(12 + Align4(len));
      if at.None? {
        return None;
      }
      var head := Put32(PROP) + Put32(len) + Put32(U32 - nameoff);
      Poke(base + offStruct + at.value, head);
      Emitted(m, bytes, base + HEADER_SIZE, base + offStruct, at.value, sizeStruct - at.value,
        base + totalsize - sizeStrings, sizeStrings, head);
      ghost var b := Block(bytes, base + offStruct + at.value, sizeStruct - at.value);
      ghost var d := Block(Struct(), at.value + 12, len);
      BlockBlock(bytes, base + offStruct, sizeStruct, at.value, sizeStruct - at.value);
      PropEmitted(strs, Struct(), at.value, b, name, d, sizeStrings - nameoff);
      SwJoin(strs, Block(m, base + offStruct, at.value), toks, b, Prop(name, d));
      toks := toks + [Prop(name, d)];
      valp := Some(at.value + 12);
    }

    /** fdt_del_last_string_. */
    method DelLastString(s: Str)
      requires Layout() && sizeStrings >= |s| + 1
      modifies this`sizeStrings
      ensures Layout() && Struct() == old(Struct()) && RsvBlock() == old(RsvBlock())
      ensures sizeStrings == old(sizeStrings) - |s| - 1 && Strs() == old(Strs())[|s| + 1..]
    {
      sizeStrings := sizeStrings - (|s| + 1);
    }

    /** fdt_property. */
    method Property(name: Str, val: Str) returns (err: int)
      requires Valid() && 0 !in name && |val| < INT_MAX && ShortEnough(name)
      modifies this`sizeStruct, this`sizeStrings, this`bytes, this`toks, mem
      ensures Valid()
      ensures err == if offStrings != totalsize then -BADSTATE else if old(Room(Need(name, |val|))) then 0 else -NOSPACE
      ensures toks == if err == 0 then old(toks) + [Prop(name, val)] else old(toks)
    {
      hide Overwrite, RsvBytes, AllRsv, Block, SwRepAll, Align4;
      var valp;
      err, valp := PropertyPlaceholder(name, |val|);
      if err != 0 {
        return;
      }
      Fill(valp, name, val, old(toks));
    }

    /** The value stored in the last property, which stands after the tags ts. */
    method Fill(valp: nat, name: Str, val: Str, ghost ts: seq<Tok>)
      requires Valid() && valp + Align4(|val|) == sizeStruct && toks == ts + [Prop(name, Block(Struct(), valp, |val|))]
      modifies this`bytes, this`toks, mem
      ensures Valid() && toks == ts + [Prop(name, val)] && Strs() == old(Strs())
    {
      hide Overwrite, RsvBytes, AllRsv, Block, SwRepAll, Align4;
      ghost var m := bytes;
      Poke(base + offStruct + valp, val);
      Filled(m, bytes, base + HEADER_SIZE, base + offStruct, sizeStruct, base + totalsize - sizeStrings, sizeStrings,
        valp, val);
      FilledProp(Strs(), Block(m, base + offStruct, sizeStruct), valp, ts, name,
        Block(Block(m, base + offStruct, sizeStruct), valp, |val|), val);
      toks := ts + [Prop(name, val)];
    }

    // ----- Moving to another buffer -----

    /** The two moves of fdt_resize, in the order in which the first does not overwrite what the second reads. */
    method MoveBoth(buf: nat, headsize: nat, newtail: nat, oldtail: nat, tailsize: nat)
      requires mem[..] == bytes && base + headsize <= oldtail && oldtail + tailsize <= mem.Length
      requires buf + headsize <= newtail && newtail + tailsize <= mem.Length
      modifies this`bytes, mem
      ensures mem[..] == bytes
      ensures Block(bytes, buf, headsize) == old(Block(bytes, base, headsize))
      ensures Block(bytes, newtail, tailsize) == old(Block(bytes, oldtail, tailsize))
    {
      hide Overwrite, Block;
      ghost var m := bytes;
      if buf <= base {
        Move(buf, base, headsize);
        HeadFirst(m, bytes, base, buf, headsize, oldtail, newtail, tailsize);
        Move(newtail, oldtail, tailsize);
      } else {
        Move(newtail, oldtail, tailsize);
        TailFirst(m, bytes, base, buf, headsize, oldtail, newtail, tailsize);
        Move(buf, base, headsize);
      }
    }

    /**
     * fdt_resize: the half-built blob moves to a buffer of bufsize bytes at buf, which may overlap the one it is in.
     */
    method Resize(buf: nat, bufsize: int) returns (err: int)
      requires Valid() && buf + bufsize <= mem.Length && bufsize <= INT_MAX
      modifies this`base, this`totalsize, this`offStrings, this`bytes, mem
      ensures Valid() && rsv == old(rsv) && toks == old(toks)
      ensures err == if bufsize < old(offStruct + sizeStruct + sizeStrings) then -NOSPACE else 0
      ensures err == 0 ==> base == buf && totalsize == bufsize && (offStrings == 0 <==> old(offStrings) == 0)
      ensures err != 0 ==> totalsize == old(totalsize) && base == old(base) && offStrings == old(offStrings)
      ensures Strs() == old(Strs())
    {
      hide Overwrite, Block, SwRepAll, RsvBytes, AllRsv;
      if bufsize < 0 {
        return -NOSPACE;
      }
      var headsize, tailsize := offStruct + sizeStruct, sizeStrings;
      if headsize + tailsize > bufsize {
        return -NOSPACE;
      }
      var oldtail, newtail := base + totalsize - tailsize, buf + bufsize - tailsize;
      ghost var m := bytes;
      MoveBoth(buf, headsize, newtail, oldtail, tailsize);
      HeadBlocks(m, bytes, base, buf, headsize, HEADER_SIZE, offStruct);
      base, totalsize := buf, bufsize;
      if offStrings != 0 {
        offStrings := bufsize;
      }
      err := 0;
    }

    // ----- Finishing -----

    /** The loop of fdt_finish: every name offset is counted from the start of the strings block. */
    method CorrectNames(size: nat, ghost strs: Str, ghost ts: seq<Tok>, ghost rest: Str) returns (nextoffset: int)
      requires mem[..] == bytes && base + offStruct + sizeStruct + size <= mem.Length && HEADER_SIZE <= offStruct
               && sizeStruct < INT_MAX
      requires size == |strs| < U32 && Around(bytes, base + HEADER_SIZE, base + offStruct, sizeStruct, rest, strs)
      requires SwRepAll(strs, Block(bytes, base + offStruct, sizeStruct), ts + [End]) && End !in ts
      modifies this`bytes, mem
      ensures mem[..] == bytes && Around(bytes, base + HEADER_SIZE, base + offStruct, sizeStruct, rest, strs)
      ensures RepAll(strs, Block(bytes, base + offStruct, sizeStruct), ts + [End]) && nextoffset >= 0
    {
      hide Around, Overwrite, Put32, Get32, SwRepAll, RepAll, Correcting, Block, TagStep;
      ghost var all, i := ts + [End], 0;
      var st := base + offStruct;
      assert all[..0] == [] && all[0..] == all;
      NoneCorrected(strs, Block(bytes, st, sizeStruct), all);
      var offset, tag := 0, 0;
      var b1 := StructBytes();
      tag, nextoffset := NextTag(Fdt(b1, []), offset);
      StepsOver(strs, Block(bytes, st, sizeStruct), offset, all, i);
      while tag != END
        invariant offset >= 0 && Aligned(offset) && i < |all|
        invariant mem[..] == bytes && Around(bytes, base + HEADER_SIZE, st, sizeStruct, rest, strs)
        invariant Correcting(strs, Block(bytes, st, sizeStruct), offset, all[..i], all[i..])
        invariant tag == TagOf(all[i]) && nextoffset == offset + TokSize(all[i]) <= sizeStruct
        decreases |all| - i
      {
        EndIsLast(ts, i);
        ghost var b := Block(bytes, st, sizeStruct);
        if tag == PROP {
          var nameoff := Get32(mem[..], st + offset + 8);
          ghost var m := bytes;
          Poke(st + offset + 8, Put32(Wrap(nameoff, size)));
          NameCorrected(m, bytes, base + HEADER_SIZE, st, sizeStruct, rest, strs, offset + 8, Wrap(nameoff, size));
        }
        CorrectNext(strs, b, Block(bytes, st, sizeStruct), offset, all, i);
        offset := nextoffset;
        i := i + 1;
        b1 := StructBytes();
        tag, nextoffset := NextTag(Fdt(b1, []), offset);
        StepsOver(strs, Block(bytes, st, sizeStruct), offset, all, i);
      }
      EndIsLast(ts, i);
      CorrectNext(strs, Block(bytes, st, sizeStruct), Block(bytes, st, sizeStruct), offset, all, i);
      assert all[..i + 1] == all && all[i + 1..] == [];
      AllCorrected(strs, Block(bytes, st, sizeStruct), offset + 4, all);
    }

    method StructBytes() returns (b: Str)
      requires mem[..] == bytes && base + offStruct + sizeStruct <= mem.Length
      ensures b == Block(bytes, base + offStruct, sizeStruct)
    {
      b := mem[..][base + offStruct..base + offStruct + sizeStruct];
    }

    /** The strings block moved down to the end of the structure block. */
    method MoveStrings(dst: nat, src: nat, ghost strs: Str, ghost rest: Str)
      requires mem[..] == bytes && HEADER_SIZE <= offStruct && dst == base + offStruct + sizeStruct <= src
               && src + sizeStrings <= mem.Length
      requires strs == Block(bytes, src, sizeStrings)
               && rest == Block(bytes, base + HEADER_SIZE, offStruct - HEADER_SIZE)
      modifies this`bytes, mem
      ensures mem[..] == bytes && Around(bytes, base + HEADER_SIZE, base + offStruct, sizeStruct, rest, strs)
      ensures Block(bytes, base + offStruct, sizeStruct) == old(Block(bytes, base + offStruct, sizeStruct))
    {
      hide Overwrite, Block, Around;
      ghost var m := bytes;
      Move(dst, src, sizeStrings);
      StringsMoved(m, bytes, base + HEADER_SIZE, base + offStruct, sizeStruct, src, strs);
    }

    /** fdt_finish: a blob whose structure block is the tags written, and whose strings block follows it. */
    method Finish() returns (err: int)
      requires Valid()
      modifies this, mem
      ensures Layout()
      ensures err == if old(offStrings) != old(totalsize) then -BADSTATE else if old(Room(4)) then 0 else -NOSPACE
      ensures err != 0 ==> Valid() && toks == old(toks)
      ensures AllRsv(rsv) && rsv == old(rsv) && RsvBlock() == RsvBytes(rsv) && base == old(base)
      ensures err == 0 ==> finished && offStrings == offStruct + sizeStruct && totalsize == offStrings + sizeStrings
      ensures err == 0 ==> RepAll(Strs(), Struct(), old(toks) + [End]) && offStruct == old(offStruct)
                           && Strs() == old(Strs())
      ensures err == 0 ==> sizeStruct == old(sizeStruct) + 4 && sizeStrings == old(sizeStrings)
    {
      hide Overwrite, Put32, RsvBytes, AllRsv, Block, SwRepAll, SwReps, RepAll, Correcting, Starts;
      if offStrings != totalsize {
        return -BADSTATE;
      }
      ghost var ts := toks;
      TagStarts(sizeStrings, Strs(), End);
      err := PutTag(4, Put32(END), End);
      if err != 0 {
        return;
      }
      Close(ts);
    }

    /** The part of fdt_finish after the end tag has been written. */
    method Close(ghost ts: seq<Tok>)
      requires Half() && offStrings == totalsize && toks == ts + [End] && End !in ts
      modifies this`offStrings, this`totalsize, this`finished, this`bytes, mem
      ensures Layout() && RsvBlock() == RsvBytes(rsv)
      ensures finished && offStrings == offStruct + sizeStruct && totalsize == offStrings + sizeStrings
      ensures Strs() == old(Strs()) && RepAll(Strs(), Struct(), ts + [End])
    {
      hide Overwrite, Put32, RsvBytes, AllRsv, Block, SwRepAll, SwReps, RepAll, Correcting;
      ghost var strs, rest := Strs(), RsvBytes(rsv);
      var oldstroffset := totalsize - sizeStrings;
      var newstroffset := offStruct + sizeStruct;
      MoveStrings(base + newstroffset, base + oldstroffset, strs, rest);
      offStrings := newstroffset;
      var next := CorrectNames(sizeStrings, strs, ts, rest);
      totalsize := newstroffset + sizeStrings;
      finished := true;
    }
  }

  /** d stored where the structure block grows by len bytes changes nothing else. */
  lemma Emitted(m: Str, n: Str, rsv: nat, st: nat, size: nat, len: nat, strs: nat, ssize: nat, d: Str)
    requires rsv <= st && st + size + len <= strs && strs + ssize <= |m| && |d| <= len
    requires n == Overwrite(m, st + size, d)
    ensures Block(n, rsv, st - rsv) == Block(m, rsv, st - rsv)
    ensures Block(n, strs, ssize) == Block(m, strs, ssize)
    ensures Block(n, st, size + len) == Block(m, st, size) + Block(n, st + size, len)
    ensures Block(n, st + size, len)[..|d|] == d
  {
    assert n[rsv..st] == m[rsv..st];
    assert n[strs..strs + ssize] == m[strs..strs + ssize];
    assert n[st..st + size + len] == m[st..st + size] + n[st + size..st + size + len];
    OverwriteBlock(m, st + size, d);
    assert n[st + size..st + size + len][..|d|] == n[st + size..st + size + |d|];
  }

  /** Bytes that start with d are the tag t, whatever pads them. */
  ghost predicate Starts(n: nat, strs: Str, d: Str, t: Tok)
    requires |strs| == n
  {
    n < U32 && |d| <= TokSize(t) && forall b | |b| == TokSize(t) && b[..|d|] == d :: SwReps(strs, b, t)
  }

  lemma StartsIs(n: nat, strs: Str, d: Str, t: Tok, b: Str)
    requires |strs| == n && Starts(n, strs, d, t) && |b| == TokSize(t) && b[..|d|] == d
    ensures n < U32 && SwReps(strs, b, t)
  {
  }

  lemma BeginStarts(n: nat, strs: Str, name: Str)
    requires |strs| == n < U32 && 0 !in name
    ensures Starts(n, strs, Put32(BEGIN_NODE) + name + [0], Begin(name))
  {
    var d := Put32(BEGIN_NODE) + name + [0];
    forall b: Str | |b| == TokSize(Begin(name)) && b[..|d|] == d
      ensures SwReps(strs, b, Begin(name))
    {
      WrittenBegin(b, name);
    }
  }

  lemma TagStarts(n: nat, strs: Str, t: Tok)
    requires |strs| == n < U32 && (t.EndNode? || t.End?)
    ensures Starts(n, strs, Put32(TagOf(t)), t)
  {
    forall b: Str | |b| == TokSize(t) && b[..4] == Put32(TagOf(t))
      ensures SwReps(strs, b, t)
    {
      assert b == b[..4];
      WrittenTag(strs, t);
    }
  }

  lemma TailBlock(m: Str, end: nat, n: nat)
    requires n <= end <= |m|
    ensures Block(m, end - n, n) == m[end - n..end]
  {
  }

  lemma NewString(m: Str, n: Str, rsv: nat, st: nat, size: nat, end: nat, ssize: nat, d: Str)
    requires rsv <= st && st + size + |d| + ssize <= end <= |m| && n == Overwrite(m, end - ssize - |d|, d)
    ensures Block(n, rsv, st - rsv) == Block(m, rsv, st - rsv) && Block(n, st, size) == Block(m, st, size)
    ensures Block(n, end - ssize - |d|, ssize + |d|) == d + Block(m, end - ssize, ssize)
  {
    assert n[rsv..st] == m[rsv..st];
    assert n[st..st + size] == m[st..st + size];
    assert n[end - ssize - |d|..end] == d + m[end - ssize..end];
  }

  lemma FirstString(s: Str, strs: Str)
    requires 0 !in s
    ensures IsStringAt(s + [0] + strs, 0, s)
  {
    assert (s + [0] + strs)[0..|s|] == s;
  }

  lemma SameNames(pre: Str, strs0: Str, strs: Str, b: Str, ts: seq<Tok>)
    requires strs == pre + strs0 && |strs| < U32 && SwRepAll(strs0, b, ts)
    ensures SwRepAll(strs, b, ts)
  {
    MoreNamesAll(pre, strs0, b, ts);
  }

  lemma PropEmitted(strs: Str, struct: Str, at: nat, b: Str, name: Str, d: Str, i: nat)
    requires at + TokSize(Prop(name, d)) == |struct| && b == Block(struct, at, |struct| - at)
             && d == Block(struct, at + 12, |d|)
    requires |strs| < U32 && i < |strs| && IsStringAt(strs, i, name) && |d| < INT_MAX
    requires b[..12] == Put32(PROP) + Put32(|d|) + Put32(U32 - (|strs| - i))
    ensures SwReps(strs, b, Prop(name, d)) && |b| == TokSize(Prop(name, d))
  {
    SliceSlice(struct, at, |struct|, 12, 12 + |d|);
    WrittenProp(strs, b, name, d, i);
  }

  /** A value stored in the structure block changes nothing else. */
  lemma Filled(m: Str, n: Str, rsv: nat, st: nat, size: nat, strs: nat, ssize: nat, o: nat, d: Str)
    requires rsv <= st && st + size <= strs && strs + ssize <= |m| && o + |d| <= size && n == Overwrite(m, st + o, d)
    ensures Block(n, rsv, st - rsv) == Block(m, rsv, st - rsv) && Block(n, strs, ssize) == Block(m, strs, ssize)
    ensures Block(n, st, size) == Overwrite(Block(m, st, size), o, d)
  {
    OverwriteApart(m, st + o, d, rsv, st - rsv);
    OverwriteApart(m, st + o, d, strs, ssize);
    OverwriteInside(m, st, size, o, d);
  }

  lemma {:induction false} SwLast(strs: Str, b: Str, ts: seq<Tok>, t: Tok)
    requires |strs| < U32 && SwRepAll(strs, b, ts + [t])
    ensures |b| == Size(ts) + TokSize(t)
    ensures SwRepAll(strs, b[..Size(ts)], ts) && SwReps(strs, b[Size(ts)..], t)
  {
    hide SwReps;
    assert (ts + [t])[0] == if ts == [] then t else ts[0];
    if ts == [] {
      assert ts + [t] == [t] && b[..TokSize(t)] == b && b[0..] == b;
    } else {
      var n := TokSize(ts[0]);
      CatSlices(ts, [t], 1);
      SwLast(strs, b[n..], ts[1..], t);
      Slices(b, n, Size(ts[1..]), Size(ts));
    }
  }

  /** Replacing the value of the last property. */
  lemma FilledProp(strs: Str, b: Str, o: nat, ts: seq<Tok>, n: Str, d: Str, val: Str)
    requires |strs| < U32 && SwRepAll(strs, b, ts + [Prop(n, d)]) && |d| == |val| && o + Align4(|val|) == |b|
    ensures SwRepAll(strs, Overwrite(b, o, val), ts + [Prop(n, val)])
  {
    hide SwReps, Overwrite, SwRepAll;
    SwLast(strs, b, ts, Prop(n, d));
    var p := Size(ts);
    var x, y := b[p..], Overwrite(b[p..], 12, val);
    OtherValue(strs, x, n, d, val);
    SwJoin(strs, b[..p], ts, y, Prop(n, val));
    assert b == b[..p] + x;
    OverwriteCat(b[..p], x, 12, val);
  }

  lemma OverwriteCat(a: Str, x: Str, o: nat, d: Str)
    requires o + |d| <= |x|
    ensures Overwrite(a + x, |a| + o, d) == a + Overwrite(x, o, d)
  {
    assert (a + x)[..|a| + o] == a + x[..o];
    assert (a + x)[|a| + o + |d|..] == x[o + |d|..];
  }

  lemma BlockBlock(m: Str, st: nat, size: nat, at: nat, len: nat)
    requires st + size <= |m| && at + len <= size
    ensures Block(Block(m, st, size), at, len) == Block(m, st + at, len)
  {
    SliceSlice(m, st, st + size, at, at + len);
  }

  lemma OtherValue(strs: Str, x: Str, n: Str, d: Str, val: Str)
    requires |strs| < U32 && |x| == TokSize(Prop(n, d)) && SwReps(strs, x, Prop(n, d)) && |val| == |d|
    ensures SwReps(strs, Overwrite(x, 12, val), Prop(n, val))
  {
    hide Get32, Put32;
    var y := Overwrite(x, 12, val);
    Relocated(x, |strs|);
    Relocated(y, |strs|);
    OverwriteElse(x, 12, val, 0);
    OverwriteElse(x, 12, val, 4);
    OverwriteElse(x, 12, val, 8);
    assert y[12..][..|val|] == val;
    assert Relocate(y, |strs|)[12..12 + |val|] == Relocate(y, |strs|)[12..][..|val|];
  }

  lemma HeadFirst(m: Str, n: Str, p: nat, q: nat, head: nat, oldtail: nat, newtail: nat, tail: nat)
    requires q <= p && p + head <= oldtail && q + head <= newtail && oldtail + tail <= |m| && newtail + tail <= |m|
    requires n == Overwrite(m, q, Block(m, p, head))
    ensures var n' := Overwrite(n, newtail, Block(n, oldtail, tail));
            Block(n', q, head) == Block(m, p, head) && Block(n', newtail, tail) == Block(m, oldtail, tail)
  {
    hide Overwrite, Block;
    OverwriteBlock(m, q, Block(m, p, head));
    OverwriteBlock(n, newtail, Block(n, oldtail, tail));
    OverwriteApart(n, newtail, Block(n, oldtail, tail), q, head);
    OverwriteApart(m, q, Block(m, p, head), oldtail, tail);
  }

  lemma TailFirst(m: Str, n: Str, p: nat, q: nat, head: nat, oldtail: nat, newtail: nat, tail: nat)
    requires p < q && p + head <= oldtail && q + head <= newtail && oldtail + tail <= |m| && newtail + tail <= |m|
    requires n == Overwrite(m, newtail, Block(m, oldtail, tail))
    ensures var n' := Overwrite(n, q, Block(n, p, head));
            Block(n', q, head) == Block(m, p, head) && Block(n', newtail, tail) == Block(m, oldtail, tail)
  {
    hide Overwrite, Block;
    OverwriteBlock(m, newtail, Block(m, oldtail, tail));
    OverwriteBlock(n, q, Block(n, p, head));
    OverwriteApart(m, newtail, Block(m, oldtail, tail), p, head);
    OverwriteApart(n, q, Block(n, p, head), newtail, tail);
  }

  lemma HeadBlocks(m: Str, n: Str, p: nat, q: nat, head: nat, rsv: nat, st: nat)
    requires p + head <= |m| && q + head <= |n| && Block(n, q, head) == Block(m, p, head) && rsv <= st <= head
    ensures Block(n, q + rsv, st - rsv) == Block(m, p + rsv, st - rsv)
    ensures Block(n, q + st, head - st) == Block(m, p + st, head - st)
  {
    BlockBlock(m, p, head, rsv, st - rsv);
    BlockBlock(n, q, head, rsv, st - rsv);
    BlockBlock(m, p, head, st, head - st);
    BlockBlock(n, q, head, st, head - st);
  }

  /** What surrounds a structure block of size bytes at st: the reserve entries in front and the strings after it. */
  ghost predicate Around(m: Str, rsv: nat, st: nat, size: nat, rest: Str, strs: Str) {
    rsv <= st && st + size + |strs| <= |m| && Block(m, rsv, st - rsv) == rest && Block(m, st + size, |strs|) == strs
  }

  lemma StringsMoved(m: Str, n: Str, rsv: nat, st: nat, size: nat, from: nat, strs: Str)
    requires rsv <= st && st + size <= from && from + |strs| <= |m| && strs == Block(m, from, |strs|)
             && n == Overwrite(m, st + size, strs)
    ensures Around(n, rsv, st, size, Block(m, rsv, st - rsv), strs) && Block(n, st, size) == Block(m, st, size)
  {
    OverwriteBlock(m, st + size, strs);
    assert n[rsv..st] == m[rsv..st];
    assert n[st..st + size] == m[st..st + size];
  }

  /** fdt_next_tag at the first tag that has not been corrected. */
  lemma StepsOver(strs: Str, b: Str, o: nat, all: seq<Tok>, i: nat)
    requires |strs| < U32 && |b| < INT_MAX && Aligned(o) && i < |all| && Correcting(strs, b, o, all[..i], all[i..])
    ensures TagStep(b, o) == (TagOf(all[i]), o + TokSize(all[i])) && o + TokSize(all[i]) <= |b|
  {
    hide SwReps, TagStep;
    var n := TokSize(all[i..][0]);
    assert b[o..][..n] == b[o..o + n];
    SwTagStep(strs, b, o, all[i]);
  }

  lemma EndIsLast(ts: seq<Tok>, i: nat)
    requires i < |ts + [End]| && End !in ts
    ensures (ts + [End])[i].End? <==> i == |ts|
  {
    if i < |ts| {
      assert ts[i] in ts;
    }
  }

  lemma NameCorrected(m: Str, n: Str, rsv: nat, st: nat, size: nat, rest: Str, strs: Str, o: nat, v: nat)
    requires Around(m, rsv, st, size, rest, strs) && o + 4 <= size && v < U32 && n == Overwrite(m, st + o, Put32(v))
    ensures Around(n, rsv, st, size, rest, strs)
    ensures Block(n, st, size) == Overwrite(Block(m, st, size), o, Put32(v))
            && Get32(m, st + o) == Get32(Block(m, st, size), o)
  {
    hide Overwrite, Get32, Put32, Block;
    Filled(m, n, rsv, st, size, st + size, |strs|, o, Put32(v));
    CellInBlock(m, st, size, o);
  }

  lemma CellInBlock(m: Str, st: nat, size: nat, o: nat)
    requires st + size <= |m| && o + 4 <= size
    ensures Get32(m, st + o) == Get32(Block(m, st, size), o)
  {
    Get32Slice(m, st, st + size, o);
  }

  lemma CorrectNext(strs: Str, b: Str, c: Str, o: nat, all: seq<Tok>, i: nat)
    requires |strs| < U32 && i < |all| && Aligned(o) && Correcting(strs, b, o, all[..i], all[i..])
    requires all[i].Prop? ==> o + 12 <= |b|
    requires c == if all[i].Prop? then Overwrite(b, o + 8, Put32(Wrap(Get32(b, o + 8), |strs|))) else b
    ensures Correcting(strs, c, o + TokSize(all[i]), all[..i + 1], all[i + 1..]) && Aligned(o + TokSize(all[i]))
  {
    hide Correcting, Overwrite, Get32, Put32;
    assert all[..i + 1] == all[..i] + [all[i]] && all[i..][1..] == all[i + 1..] && all[i..][0] == all[i];
    TokAligned(all[i]);
    AlignedSum(o, TokSize(all[i]));
    CorrectOne(strs, b, c, o, all[..i], all[i..]);
  }

  lemma NoneCorrected(strs: Str, b: Str, ts: seq<Tok>)
    requires |strs| < U32 && SwRepAll(strs, b, ts)
    ensures Correcting(strs, b, 0, [], ts)
  {
    assert b[0..] == b;
  }

  lemma AllCorrected(strs: Str, b: Str, o: nat, ts: seq<Tok>)
    requires |strs| < U32 && Correcting(strs, b, o, ts, [])
    ensures RepAll(strs, b, ts)
  {
    assert b[o..] == [];
    assert b[..o] == b;
  }

  lemma OneMoreEntry(m: Str, n: Str, lo: nat, hi: nat, rs: seq<Rsv>, r: Rsv)
    requires lo <= hi && hi + 16 <= |m| && AllRsv(rs) && IsRsv(r)
    requires Block(m, lo, hi - lo) == RsvBytes(rs) && n == Overwrite(m, hi, Put64(r.addr) + Put64(r.size))
    ensures AllRsv(rs + [r])
    ensures Block(n, lo, hi + 16 - lo) == RsvBytes(rs + [r])
  {
    hide Put64;
    var d := Put64(r.addr) + Put64(r.size);
    assert (rs + [r])[..|rs|] == rs;
    assert n[lo..hi + 16] == m[lo..hi] + d;
  }
}
