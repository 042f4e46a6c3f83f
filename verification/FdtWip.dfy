/** The edits that move nothing (libs/libfdt/fdt_wip.c): values overwritten in place, tags turned into NOPs. */
module FdtWip {
  import opened Bytes
  import opened Tree
  import opened Encoding
  import opened Positions
  import opened Tags
  import opened FdtRead
  import opened Blobs
  import opened Edits
  import opened FdtRw

  // ----- NOPs -----

  function NopToks(k: nat): seq<Tok> {
    if k == 0 then [] else NopToks(k - 1) + [Nop]
  }

  function NopBytes(k: nat): (b: Str)
    ensures |b| == 4 * k
  {
    if k == 0 then [] else NopBytes(k - 1) + Put32(NOP)
  }

  lemma {:induction false} NopBytesRep(strs: Str, k: nat)
    ensures RepAll(strs, NopBytes(k), NopToks(k)) && Size(NopToks(k)) == 4 * k
  {
    if k > 0 {
      NopBytesRep(strs, k - 1);
      PutGet32(NOP);
      RepOne(strs, Put32(NOP), Nop);
      RepJoin(strs, NopBytes(k - 1), NopToks(k - 1), Put32(NOP), [Nop]);
      SizeCat(NopToks(k - 1), [Nop]);
      SizeOne(Nop);
    }
  }

  lemma ThreeParts<T>(a: seq<T>, b: seq<T>, c: seq<T>)
    ensures a + (b + c) == a + b + c
  {
  }

  lemma {:induction false} NopFlat(k: nat, f: Forest)
    ensures Flat(Nops(k, f)) == NopToks(k) + Flat(f)
  {
    if k == 0 {
      assert [] + Flat(f) == Flat(f);
    } else {
      NopFlat(k - 1, f);
      hide NopToks;
      NopFront(k);
      ThreeParts([Nop], NopToks(k - 1), Flat(f));
    }
  }

  lemma {:induction false} NopFront(k: nat)
    requires k > 0
    ensures NopToks(k) == [Nop] + NopToks(k - 1)
  {
    if k > 1 {
      NopFront(k - 1);
      assert [Nop] + NopToks(k - 2) + [Nop] == [Nop] + (NopToks(k - 2) + [Nop]);
    }
  }

  lemma OverwriteMore(s: Str, o: nat, a: Str, d: Str)
    requires o + |a| + |d| <= |s|
    ensures Overwrite(Overwrite(s, o, a), o + |a|, d) == Overwrite(s, o, a + d)
  {
    var t := Overwrite(s, o, a);
    assert t[..o + |a|] == s[..o] + a;
    assert t[o + |a| + |d|..] == s[o + |a| + |d|..];
  }

  /** fdt_nop_region_: len bytes from offset o on, rounded up to whole words, become NOP tags. */
  method NopRegion(fdt: Blob, o: nat, len: nat)
    requires fdt.Layout() && o + Align4(len) <= fdt.sizeStruct
    modifies fdt`bytes, fdt.mem
    ensures fdt.Layout() && fdt.Reserve() == old(fdt.Reserve())
    ensures fdt.View() == old(fdt.View()).(struct := Overwrite(old(fdt.View().struct), o, NopBytes(Align4(len) / 4)))
  {
    hide Overwrite, NopBytes, Put32;
    ghost var s := fdt.View().struct;
    var p := o;
    ghost var i := 0;
    OverwriteNone(s, o);
    while p < o + len
      invariant p == o + 4 * i && 4 * i <= Align4(len)
      invariant fdt.Layout() && fdt.Reserve() == old(fdt.Reserve())
      invariant o + 4 * i <= |s| && fdt.View() == old(fdt.View()).(struct := Overwrite(s, o, NopBytes(i)))
    {
      fdt.StoreCell(p, NOP);
      OverwriteMore(s, o, NopBytes(i), Put32(NOP));
      MoreNops(i);
      p := p + 4;
      i := i + 1;
    }
    assert 4 * i == Align4(len);
  }

  lemma OverwriteNone(s: Str, o: nat)
    requires o <= |s|
    ensures Overwrite(s, o, NopBytes(0)) == s
  {
  }

  lemma MoreNops(i: nat)
    ensures NopBytes(i) + Put32(NOP) == NopBytes(i + 1)
  {
  }

  /** Turning the tags before a common tail into NOPs changes nothing but those tags. */
  lemma NopEdit(v: Fdt, w: Fdt, c: Ctx, f: Forest, g: Forest, before: seq<Tok>, k: nat)
    requires Encodes(v, Plug(c, f)) && Flat(f) == before + Flat(g) && Size(before) == 4 * k
             && Off(c) + 4 * k <= |v.struct|
    requires w == v.(struct := Overwrite(v.struct, Off(c), NopBytes(k)))
    ensures Encodes(w, Plug(c, Nops(k, g))) && Spliced(v.struct, w.struct, Off(c), 4 * k, 4 * k)
  {
    hide Encodes, RepAll, Plug, Off, Size, Flat, Spliced, Overwrite, Block;
    SplicedRefl(v.struct, Off(c), 4 * k);
    SplicedWrite(v.struct, v.struct, Off(c), 4 * k, 4 * k, Off(c), NopBytes(k));
    OverwriteBlock(v.struct, Off(c), NopBytes(k));
    NopBytesRep(w.strs, k);
    NopFlat(k, g);
    EncodesSize(v, Plug(c, f));
    EditTree(v, w, c, f, Nops(k, g), before, NopToks(k), Flat(g));
  }

  lemma EncodesSize(v: Fdt, f: Forest)
    requires Encodes(v, f)
    ensures |v.struct| < INT_MAX
  {
  }

  /** Some tags of the tree at c, all before g, are turned into NOPs. */
  method NopOut(fdt: Blob, at: nat, len: nat, ghost c: Ctx, ghost f: Forest, ghost g: Forest, ghost before: seq<Tok>)
    requires Stands(fdt, Pos(c, f), at) && Depth(c) > 0
    requires Flat(f) == before + Flat(g) && Align4(len) == Size(before) && Size(before) <= FSize(f)
    modifies fdt, fdt.mem
    ensures fdt.Valid() && fdt.Reserve() == old(fdt.Reserve()) && fdt.View().strs == old(fdt.View().strs)
    ensures fdt.root == Plug(c, Nops(Align4(len) / 4, g))
    ensures Spliced(old(fdt.View().struct), fdt.View().struct, at, Align4(len), Align4(len))
  {
    hide Encodes, Plug, Off, Size, Flat, Spliced, Block, Overwrite;
    ghost var v := fdt.View();
    StructSize(v, Pos(c, f));
    NopRegion(fdt, at, len);
    NopEdit(v, fdt.View(), c, f, g, before, Align4(len) / 4);
    RootKept(c, f, Nops(Align4(len) / 4, g));
    fdt.root := Plug(c, Nops(Align4(len) / 4, g));
  }

  /** fdt_nop_property: readers see the tree that fdt_delprop leaves, and no byte outside the property has changed. */
  method NopProperty(fdt: Blob, nodeoffset: int, name: Str, ghost p: Pos) returns (err: int)
    requires Stands(fdt, p, nodeoffset)
    modifies fdt, fdt.mem
    ensures fdt.Valid() && fdt.Reserve() == old(fdt.Reserve()) && fdt.View().strs == old(fdt.View().strs)
    ensures err == if !p.f.SubF? then -BADOFFSET else if HasProp(p.f.body, name) then 0 else -NOTFOUND
    ensures err == 0 ==> Strip(fdt.root) == Strip(InNode(p, DropProp(p.f.body, name)))
    ensures err == 0 ==> FindProp(Enter(p), name).Some? && var q := FindProp(Enter(p), name).value;
                         Spliced(old(fdt.View().struct), fdt.View().struct, Off(q.c), TokSize(TagAt(q)),
                           TokSize(TagAt(q)))
    ensures err != 0 ==> fdt.View() == old(fdt.View()) && fdt.root == old(fdt.root)
  {
    hide Encodes, Plug, Off, Get32, IsStringAt, Strip, Spliced, FindProp, DropProp, Nops, Flat, Size, Align4;
    var v := fdt.Read();
    var prop := GetPropertyOffset(v, nodeoffset, name, p);
    if p.f.SubF? {
      FindHas(Enter(p), name);
      FindDepth(Enter(p), name);
    }
    if prop < 0 {
      return prop;
    }
    ghost var q := FindProp(Enter(p), name).value;
    PropHere(v, q);
    DropAt(Enter(p), name);
    CutProp(q.f);
    var len := Get32(v.struct, prop + 4);
    AlignShift(12, len);
    NopOut(fdt, prop, len + 12, q.c, q.f, q.f.rest, [Prop(q.f.pname, q.f.data)]);
    EnterPlug(p, DropProp(p.f.body, name));
    StripNops(Align4(len + 12) / 4, q.f.rest);
    StripPlug(q.c, Nops(Align4(len + 12) / 4, q.f.rest), q.f.rest);
    err := 0;
  }

  /** fdt_nop_node of a node other than the root: readers see the tree that fdt_del_node leaves. */
  method NopNode(fdt: Blob, nodeoffset: int, ghost p: Pos) returns (err: int)
    requires Stands(fdt, p, nodeoffset) && Depth(p.c) > 0
    modifies fdt, fdt.mem
    ensures fdt.Valid() && fdt.Reserve() == old(fdt.Reserve()) && fdt.View().strs == old(fdt.View().strs)
    ensures err == if p.f.SubF? then 0 else -BADOFFSET
    ensures err == 0 ==> Strip(fdt.root) == Strip(Plug(p.c, p.f.rest))
    ensures err == 0 ==> var n := Off(After(p).c) - Off(p.c);
                         n >= 0 && Spliced(old(fdt.View().struct), fdt.View().struct, Off(p.c), n, n)
    ensures err != 0 ==> fdt.View() == old(fdt.View()) && fdt.root == old(fdt.root)
  {
    hide Encodes, Plug, Off, Strip, Spliced;
    var v := fdt.Read();
    var endoffset := NodeEndOffset(v, nodeoffset, p);
    if endoffset < 0 {
      return endoffset;
    }
    AfterOff(p);
    OffAligned(p.c);
    OffAligned(After(p).c);
    var len := endoffset - nodeoffset;
    AlignedDiff(endoffset, nodeoffset);
    NopOut(fdt, nodeoffset, len, p.c, p.f, p.f.rest, [Begin(p.f.name)] + Flat(p.f.body) + [EndNode]);
    StripNops(Align4(len) / 4, p.f.rest);
    StripPlug(p.c, Nops(Align4(len) / 4, p.f.rest), p.f.rest);
    err := 0;
  }

  lemma AlignedDiff(a: nat, b: nat)
    requires Aligned(a) && Aligned(b) && b <= a
    ensures Align4(a - b) == a - b
  {
  }

  // ----- Values -----

  /**
   * fdt_setprop_inplace_namelen_partial: part of a value overwritten. The sum of the index and the length wraps at 32
   * bits.
   */
  method SetPropInplacePartial(fdt: Blob, nodeoffset: int, name: Str, idx: nat, val: Str, ghost p: Pos)
      returns (err: int)
    requires Stands(fdt, p, nodeoffset) && idx < U32 && |val| <= INT_MAX
    modifies fdt, fdt.mem
    ensures fdt.Valid() && fdt.Reserve() == old(fdt.Reserve()) && fdt.View().strs == old(fdt.View().strs)
    ensures err == if !p.f.SubF? then -BADOFFSET else if !HasProp(p.f.body, name) then -NOTFOUND else
                   if idx + |val| <= |PropData(p.f.body, name)| then 0 else
                   if idx + |val| - U32 > |PropData(p.f.body, name)| || idx + |val| < U32 then -NOSPACE else WILD
    ensures err == 0 ==> fdt.root == InNode(p, PutProp(p.f.body, name, Overwrite(PropData(p.f.body, name), idx, val)))
    ensures err != 0 ==> fdt.View() == old(fdt.View()) && fdt.root == old(fdt.root)
  {
    hide Encodes, Plug, Off, Get32, IsStringAt, Overwrite, Block, Spliced, FindProp, PutProp;
    var v := fdt.Read();
    var prop := GetPropertyOffset(v, nodeoffset, name, p);
    if p.f.SubF? {
      FindHas(Enter(p), name);
      FindDepth(Enter(p), name);
    }
    if prop < 0 {
      return prop;
    }
    ghost var q := FindProp(Enter(p), name).value;
    PropHere(v, q);
    if Get32(v.struct, prop + 4) < (idx + |val|) % U32 {
      return -NOSPACE;
    }
    if Get32(v.struct, prop + 4) < idx + |val| {
      return WILD;
    }
    ghost var d := Overwrite(q.f.data, idx, val);
    StoreValue(fdt, prop, idx, val, q);
    PutPropPos(Enter(p), name, d);
    EnterPlug(p, PutProp(p.f.body, name, d));
    err := 0;
  }
}
