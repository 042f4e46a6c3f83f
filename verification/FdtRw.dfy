/** The editing calls of libs/libfdt/fdt_rw.c, on the bytes of the buffer. */
module FdtRw {
  import opened Bytes
  import opened Tree
  import opened Encoding
  import opened Positions
  import opened Tags
  import opened FdtRead
  import opened Blobs
  import opened Edits

  /** nodeoffset is where the structure block of fdt has the tag at p. */
  ghost predicate Stands(fdt: Blob, p: Pos, nodeoffset: int)
    reads fdt, fdt.mem
  {
    fdt.Valid() && fdt.root == Whole(p) && nodeoffset == Off(p.c)
  }

  /** Replacing the tags before a common tail replaces what the hole of c holds. */
  lemma EditTree(v: Fdt, w: Fdt, c: Ctx, f: Forest, g: Forest, before: seq<Tok>, after: seq<Tok>, tail: seq<Tok>)
    requires Encodes(Fdt(v.struct, w.strs), Plug(c, f)) && |w.struct| < INT_MAX
    requires Flat(f) == before + tail && Flat(g) == after + tail
    requires Spliced(v.struct, w.struct, Off(c), Size(before), Size(after))
    requires Off(c) + Size(after) <= |w.struct|
    requires RepAll(w.strs, Block(w.struct, Off(c), Size(after)), after)
    ensures Encodes(w, Plug(c, g))
  {
    hide *;
    var m, n := FSize(Plug(c, f)) + 4, FSize(Plug(c, g)) + 4;
    var post := tail + (Post(c) + [End]);
    OffPre(c);
    EditSize(c, f, g, before, after, tail);
    SplitPlug(c, f, before, tail);
    SplitPlug(c, g, after, tail);
    EncodesIs(Fdt(v.struct, w.strs), Plug(c, f), m);
    EditBytes(w.strs, v.struct, w.struct, m, n, Pre(c), before, after, post);
    EncodesIs(w, Plug(c, g), n);
  }

  /** The same edit on the bytes up to the end tag, m of them before the edit and n after it. */
  lemma EditBytes(strs: Str, s: Str, t: Str, m: nat, n: nat, pre: seq<Tok>, before: seq<Tok>, after: seq<Tok>,
      post: seq<Tok>)
    requires Size(pre) + Size(before) <= m <= |s| && RepAll(strs, s[..m], pre + (before + post))
    requires Spliced(s, t, Size(pre), Size(before), Size(after))
    requires Size(pre) + Size(after) <= |t| && RepAll(strs, Block(t, Size(pre), Size(after)), after)
    requires n == m - Size(before) + Size(after)
    ensures n <= |t| && RepAll(strs, t[..n], pre + (after + post))
  {
    hide RepAll, Size, Spliced, Block;
    SplicedPrefix(s, t, Size(pre), Size(before), Size(after), m);
    ReplaceTags(strs, s[..m], t[..n], pre, before, after, post);
  }

  /** What the edit does to the size of the tree. */
  lemma EditSize(c: Ctx, f: Forest, g: Forest, before: seq<Tok>, after: seq<Tok>, tail: seq<Tok>)
    requires Flat(f) == before + tail && Flat(g) == after + tail
    ensures Off(c) + Size(before) <= FSize(Plug(c, f))
            && FSize(Plug(c, g)) == FSize(Plug(c, f)) - Size(before) + Size(after)
  {
    hide Plug, Off, Size, Flat, FSize;
    RemainingIs(Pos(c, f));
    RemainingIs(Pos(c, g));
    FSizeFlat(f);
    FSizeFlat(g);
    SizeCat(before, tail);
    SizeCat(after, tail);
  }

  /** A splice in front of offset m is a splice of the bytes up to there. */
  lemma SplicedPrefix(s: Str, t: Str, p: nat, oldlen: nat, newlen: nat, m: nat)
    requires Spliced(s, t, p, oldlen, newlen) && p + oldlen <= m <= |s|
    ensures m - oldlen + newlen <= |t| && Spliced(s[..m], t[..m - oldlen + newlen], p, oldlen, newlen)
    ensures p + newlen <= m - oldlen + newlen && Block(t[..m - oldlen + newlen], p, newlen) == Block(t, p, newlen)
  {
    var n := m - oldlen + newlen;
    assert t[..n][..p] == t[..p] && s[..m][..p] == s[..p];
    assert t[..n][p + newlen..] == t[p + newlen..][..n - p - newlen];
    assert s[..m][p + oldlen..] == s[p + oldlen..][..m - p - oldlen];
    assert t[..n][p..p + newlen] == t[p..p + newlen];
  }

  lemma SplitPlug(c: Ctx, f: Forest, a: seq<Tok>, tail: seq<Tok>)
    requires Flat(f) == a + tail
    ensures Flat(Plug(c, f)) + [End] == Pre(c) + (a + (tail + (Post(c) + [End])))
  {
    hide *;
    FlatPlug(c, f);
    Shift(Pre(c), a, tail, Post(c));
  }

  lemma Shift(pre: seq<Tok>, a: seq<Tok>, tail: seq<Tok>, post: seq<Tok>)
    ensures pre + (a + tail) + post + [End] == pre + (a + (tail + (post + [End])))
  {
  }

  lemma SizeOne(t: Tok)
    ensures Size([t]) == TokSize(t)
  {
    assert [t][1..] == [];
  }

  /** Rewriting one property in place of the property, or of nothing, before rest. */
  lemma EditProp(v: Fdt, w: Fdt, c: Ctx, f: Forest, n: Str, d: Str, rest: Forest)
    requires Encodes(Fdt(v.struct, w.strs), Plug(c, f)) && |w.struct| < INT_MAX
    requires f == rest || (f.PropF? && f.rest == rest)
    requires Spliced(v.struct, w.struct, Off(c), if f == rest then 0
             else TokSize(Prop(f.pname, f.data)), TokSize(Prop(n, d)))
    requires Off(c) + TokSize(Prop(n, d)) <= |w.struct|
    requires Reps(w.strs, Block(w.struct, Off(c), TokSize(Prop(n, d))), Prop(n, d))
    ensures Encodes(w, Plug(c, PropF(n, d, rest)))
  {
    hide Encodes, Reps, Plug, Off, Spliced, TokSize, Block;
    var before := if f == rest then [] else [Prop(f.pname, f.data)];
    assert f == rest ==> Flat(f) == [] + Flat(rest);
    SizeOne(Prop(n, d));
    if f != rest {
      SizeOne(Prop(f.pname, f.data));
    }
    RepOne(w.strs, Block(w.struct, Off(c), TokSize(Prop(n, d))), Prop(n, d));
    EditTree(v, w, c, f, PropF(n, d, rest), before, [Prop(n, d)], Flat(rest));
  }

  // ----- The strings block -----

  /** s, with its NUL, is found at offset i of strs. */
  predicate StringAt(strs: Str, i: nat, s: Str) {
    i + |s| < |strs| && strs[i..i + |s|] == s && strs[i + |s|] == 0
  }

  ghost predicate Occurs(strs: Str, s: Str) {
    exists i: nat :: StringAt(strs, i, s)
  }

  /** fdt_find_string_len_: the first place where s and a NUL stand in the strings block. */
  method FindString(strs: Str, s: Str) returns (r: Option<nat>)
    ensures r.Some? ==> StringAt(strs, r.value, s) && forall i: nat | i < r.value :: !StringAt(strs, i, s)
    ensures r.None? ==> !Occurs(strs, s)
  {
    var p := 0;
    while p <= |strs| - (|s| + 1)
      invariant forall i: nat | i < p :: !StringAt(strs, i, s)
      decreases |strs| - p
    {
      if strs[p..p + |s|] == s && strs[p + |s|] == 0 {
        return Some(p);
      }
      p := p + 1;
    }
    r := None;
  }

  /** fdt_splice_string_ and the writing of the new string. */
  method AppendString(fdt: Blob, s: Str) returns (err: int)
    requires fdt.Layout()
    modifies fdt`sizeStrings, fdt`bytes, fdt.mem
    ensures fdt.Layout() && fdt.Reserve() == old(fdt.Reserve())
    ensures err == if old(fdt.DataSize()) + |s| + 1 > fdt.totalsize then -NOSPACE else 0
    ensures err != 0 ==> fdt.View() == old(fdt.View())
    ensures err == 0 ==> fdt.View() == old(fdt.View()).(strs := old(fdt.View().strs) + s + [0])
    ensures err == 0 ==> fdt.DataSize() == old(fdt.DataSize()) + |s| + 1
  {
    hide Moved, Overwrite, Block;
    ghost var m, size := fdt.bytes, fdt.sizeStrings;
    err := fdt.Splice(fdt.DataSize(), 0, |s| + 1);
    if err != 0 {
      return;
    }
    ghost var n := fdt.bytes;
    fdt.Poke(fdt.DataSize(), s + [0]);
    fdt.sizeStrings := fdt.sizeStrings + |s| + 1;
    AppendedBlocks(m, n, fdt.bytes, fdt.offRsv, fdt.offStruct, fdt.sizeStruct, fdt.offStrings, size, fdt.sizeStrings,
      s + [0]);
    assert old(fdt.View().strs) + (s + [0]) == old(fdt.View().strs) + s + [0];
  }

  lemma AppendedBlocks(m: Str, n: Str, r: Str, rsv: nat, st: nat, size: nat, strs: nat, ssize: nat, ssize': nat, s: Str)
    requires rsv <= st && st + size <= strs && strs + ssize' <= |m| && ssize' == ssize + |s|
    requires Moved(m, n, strs + ssize, 0, |s|, strs + ssize)
    requires r == Overwrite(n, strs + ssize, s)
    ensures Block(r, rsv, st - rsv) == Block(m, rsv, st - rsv)
    ensures Block(r, st, size) == Block(m, st, size)
    ensures Block(r, strs, ssize') == Block(m, strs, ssize) + s
  {
    SameRun(m, r, rsv, rsv, st - rsv);
    SameRun(m, r, st, st, size);
    SameRun(m, r, strs, strs, ssize);
    assert r[strs..strs + ssize'] == r[strs..strs + ssize] + r[strs + ssize..strs + ssize'];
    assert r[strs + ssize..strs + ssize'] == s;
  }

  /** fdt_find_add_string_: the offset of s in the strings block, where it is put if it was not there. */
  method FindAddString(fdt: Blob, s: Str) returns (r: int, added: bool)
    requires fdt.Layout() && 0 !in s
    modifies fdt`sizeStrings, fdt`bytes, fdt.mem
    ensures fdt.Layout() && fdt.Reserve() == old(fdt.Reserve())
    ensures r >= 0 ==> r < INT_MAX && IsStringAt(fdt.View().strs, r, s)
    ensures r >= 0 ==> fdt.View() == old(fdt.View()).(strs := old(fdt.View().strs) + if added then s + [0] else [])
    ensures r >= 0 ==> added == !old(Occurs(fdt.View().strs, s))
    ensures r >= 0 ==> fdt.DataSize() == old(fdt.DataSize()) + if added then |s| + 1 else 0
    ensures r < 0 ==> r == -NOSPACE && !added && fdt.View() == old(fdt.View()) && fdt.DataSize() == old(fdt.DataSize())
    ensures r < 0 <==> old(!Occurs(fdt.View().strs, s) && fdt.DataSize() + |s| + 1 > fdt.totalsize)
  {
    hide Occurs, Block;
    var v := fdt.Read();
    var p := FindString(v.strs, s);
    if p.Some? {
      r, added := p.value, false;
      OccursAt(v.strs, p.value, s);
      assert v.strs + [] == v.strs;
      return;
    }
    r := |v.strs|;
    var err := AppendString(fdt, s);
    if err != 0 {
      return err, false;
    }
    added := true;
    assert v.strs + (s + [0]) == v.strs + s + [0];
    AppendedString(v.strs, s);
  }

  lemma OccursAt(strs: Str, i: nat, s: Str)
    requires StringAt(strs, i, s)
    ensures Occurs(strs, s)
  {
  }

  lemma AppendedString(strs: Str, s: Str)
    requires 0 !in s
    ensures IsStringAt(strs + s + [0], |strs|, s)
  {
    assert (strs + s + [0])[|strs|..|strs| + |s|] == s;
  }

  /** fdt_del_last_string_. */
  method DelLastString(fdt: Blob, s: Str)
    requires fdt.Layout() && fdt.sizeStrings >= |s| + 1
    modifies fdt`sizeStrings
    ensures fdt.Layout() && fdt.Reserve() == old(fdt.Reserve())
    ensures fdt.View() == old(fdt.View()).(strs := old(fdt.View().strs)[..old(fdt.sizeStrings) - |s| - 1])
    ensures fdt.DataSize() == old(fdt.DataSize()) - |s| - 1
  {
    fdt.sizeStrings := fdt.sizeStrings - (|s| + 1);
    SliceSlice(fdt.bytes, fdt.offStrings, fdt.offStrings + old(fdt.sizeStrings), 0, fdt.sizeStrings);
  }

  // ----- Properties -----

  /** The bytes of a property after its value has been given a new length. */
  lemma ResizedProp(strs: Str, s: Str, t: Str, o: nat, n: Str, d: Str, len: nat)
    requires o + TokSize(Prop(n, d)) <= |s| && |t| < INT_MAX
    requires Get32(s, o) == PROP && IsStringAt(strs, Get32(s, o + 8), n)
    requires Spliced(s, t, o + 12, Align4(|d|), Align4(len)) && o + 12 + Align4(len) <= |t|
    ensures var u := Overwrite(t, o + 4, Put32(len));
            && |u| == |t|
            && Spliced(s, u, o, TokSize(Prop(n, d)), 12 + Align4(len))
            && Reps(strs, Block(u, o, 12 + Align4(len)), Prop(n, Block(u, o + 12, len)))
  {
    hide Spliced, IsStringAt, Get32, Put32, Overwrite, Align4, Reps;
    var u := Overwrite(t, o + 4, Put32(len));
    SplicedWiden(s, t, o, 12, Align4(|d|), Align4(len), 0);
    SplicedWrite(s, t, o, TokSize(Prop(n, d)), 12 + Align4(len), o + 4, Put32(len));
    ReadBefore(s, t, o + 12, Align4(|d|), Align4(len), o);
    ReadBefore(s, t, o + 12, Align4(|d|), Align4(len), o + 8);
    OverwriteElse(t, o + 4, Put32(len), o);
    OverwriteElse(t, o + 4, Put32(len), o + 8);
    OverwriteCell(t, o + 4, len);
    BuildProp(strs, u, o, n, Block(u, o + 12, len));
  }

  lemma KeptValue(s: Str, t: Str, o: nat, d: Str, len: nat)
    requires o + 12 + |d| <= |s| && s[o + 12..o + 12 + |d|] == d
    requires o + 12 + len <= |t| && len < U32
    requires SameStart(s, t, o + 12 + Min(Align4(|d|), Align4(len)))
    ensures SameStart(d, Block(Overwrite(t, o + 4, Put32(len)), o + 12, len), Min(|d|, len))
  {
    var k, m := Min(|d|, len), o + 12 + Min(Align4(|d|), Align4(len));
    var u := Overwrite(t, o + 4, Put32(len));
    SliceSlice(s, 0, m, o + 12, o + 12 + k);
    SliceSlice(t, 0, m, o + 12, o + 12 + k);
    assert u[o + 12..o + 12 + k] == t[o + 12..o + 12 + k];
    SliceSlice(u, o + 12, o + 12 + len, 0, k);
    SliceSlice(s, o + 12, o + 12 + |d|, 0, k);
  }

  /** fdt_resize_property_: a property at q is given len bytes of value. */
  method ResizeProperty(fdt: Blob, prop: int, len: nat, ghost q: Pos) returns (err: int)
    requires Stands(fdt, q, prop) && q.f.PropF? && Depth(q.c) > 0
    modifies fdt, fdt.mem
    ensures fdt.Valid() && fdt.Reserve() == old(fdt.Reserve()) && fdt.totalsize == old(fdt.totalsize)
    ensures fdt.View().strs == old(fdt.View().strs)
    ensures err == if old(fdt.DataSize()) - Align4(|q.f.data|) + Align4(len) > fdt.totalsize then -NOSPACE else 0
    ensures err != 0 ==> fdt.View() == old(fdt.View()) && fdt.root == old(fdt.root)
                         && fdt.DataSize() == old(fdt.DataSize())
    ensures err == 0 ==> prop + 12 + len <= fdt.sizeStruct
    ensures err == 0 ==> fdt.root == Plug(q.c, PropF(q.f.pname, Block(fdt.View().struct, prop + 12, len), q.f.rest))
    ensures err == 0 ==> fdt.DataSize() == old(fdt.DataSize()) - Align4(|q.f.data|) + Align4(len)
    ensures err == 0 ==> SameStart(q.f.data, Block(fdt.View().struct, prop + 12, len), Min(|q.f.data|, len))
  {
    hide Encodes, Plug, Off, Spliced, Block, Overwrite, Get32, IsStringAt, SameStart;
    var v := fdt.Read();
    PropHere(v, q);
    err := fdt.SpliceStruct(prop + 12, Align4(Get32(v.struct, prop + 4)), Align4(len));
    if err != 0 {
      return;
    }
    ghost var t := fdt.View().struct;
    fdt.StoreCell(prop + 4, len);
    KeptValue(v.struct, t, prop, q.f.data, len);
    ResizedProp(v.strs, v.struct, t, prop, q.f.pname, q.f.data, len);
    ghost var d := Block(fdt.View().struct, prop + 12, len);
    EditProp(v, fdt.View(), q.c, q.f, q.f.pname, d, q.f.rest);
    RootKept(q.c, q.f, PropF(q.f.pname, d, q.f.rest));
    fdt.root := Plug(q.c, PropF(q.f.pname, d, q.f.rest));
  }

  /** A property with len bytes of value written where nothing was. */
  lemma AddedProp(strs: Str, s: Str, t: Str, o: nat, n: Str, off: nat, len: nat)
    requires off < U32 && len < INT_MAX && IsStringAt(strs, off, n)
    requires Spliced(s, t, o, 0, 12 + Align4(len)) && o + 12 + Align4(len) <= |t|
    ensures var u := WriteHeader(t, o, off, len);
            && |u| == |t|
            && Spliced(s, u, o, 0, 12 + Align4(len))
            && Reps(strs, Block(u, o, 12 + Align4(len)), Prop(n, Block(u, o + 12, len)))
  {
    hide Spliced, IsStringAt, Get32, Put32, Overwrite, Align4, Reps;
    var t1 := Overwrite(t, o, Put32(PROP));
    var t2 := Overwrite(t1, o + 8, Put32(off));
    var u := Overwrite(t2, o + 4, Put32(len));
    SplicedWrite(s, t, o, 0, 12 + Align4(len), o, Put32(PROP));
    SplicedWrite(s, t1, o, 0, 12 + Align4(len), o + 8, Put32(off));
    SplicedWrite(s, t2, o, 0, 12 + Align4(len), o + 4, Put32(len));
    OverwriteCell(t, o, PROP);
    OverwriteElse(t1, o + 8, Put32(off), o);
    OverwriteElse(t2, o + 4, Put32(len), o);
    OverwriteCell(t1, o + 8, off);
    OverwriteElse(t2, o + 4, Put32(len), o + 8);
    OverwriteCell(t2, o + 4, len);
    BuildProp(strs, u, o, n, Block(u, o + 12, len));
  }

  function WriteHeader(t: Str, o: nat, off: nat, len: nat): Str
    requires o + 12 <= |t| && off < U32 && len < U32
  {
    Overwrite(Overwrite(Overwrite(t, o, Put32(PROP)), o + 8, Put32(off)), o + 4, Put32(len))
  }

  method StoreHeader(fdt: Blob, o: nat, off: nat, len: nat)
    requires fdt.Layout() && o + 12 <= fdt.sizeStruct && off < U32 && len < U32
    modifies fdt`bytes, fdt.mem
    ensures fdt.Layout() && fdt.Reserve() == old(fdt.Reserve())
    ensures fdt.View() == old(fdt.View()).(struct := WriteHeader(old(fdt.View().struct), o, off, len))
  {
    hide Overwrite, Block, Put32;
    fdt.StoreCell(o, PROP);
    fdt.StoreCell(o + 8, off);
    fdt.StoreCell(o + 4, len);
  }

  /** Make room for a property at q and write its header. */
  method InsertProp(fdt: Blob, prop: nat, namestroff: nat, len: nat, ghost name: Str, ghost q: Pos) returns (err: int)
    requires Stands(fdt, q, prop) && Depth(q.c) > 0
    requires namestroff < U32 && IsStringAt(fdt.View().strs, namestroff, name)
    modifies fdt`sizeStruct, fdt`offStrings, fdt`bytes, fdt`root, fdt.mem
    ensures fdt.Valid() && fdt.Reserve() == old(fdt.Reserve()) && fdt.View().strs == old(fdt.View().strs)
    ensures err == if old(fdt.DataSize()) + 12 + Align4(len) > fdt.totalsize then -NOSPACE else 0
    ensures err != 0 ==> fdt.View() == old(fdt.View()) && fdt.root == old(fdt.root)
                         && fdt.DataSize() == old(fdt.DataSize())
    ensures err == 0 ==> prop + 12 + len <= fdt.sizeStruct
    ensures err == 0 ==> fdt.root == Plug(q.c, PropF(name, Block(fdt.View().struct, prop + 12, len), q.f))
    ensures err == 0 ==> fdt.DataSize() == old(fdt.DataSize()) + 12 + Align4(len)
  {
    hide Encodes, Plug, Off, Spliced, Block, WriteHeader, Get32, IsStringAt;
    ghost var v := fdt.View();
    TagStepAt(v, q);
    err := fdt.SpliceStruct(prop, 0, 12 + Align4(len));
    if err != 0 {
      return;
    }
    ghost var t := fdt.View().struct;
    StoreHeader(fdt, prop, namestroff, len);
    AddedProp(v.strs, v.struct, t, prop, name, namestroff, len);
    ghost var d := Block(fdt.View().struct, prop + 12, len);
    EditProp(v, fdt.View(), q.c, q.f, name, d, q.f);
    RootKept(q.c, q.f, PropF(name, d, q.f));
    fdt.root := Plug(q.c, PropF(name, d, q.f));
  }

  /** The bytes that adding a property called name takes. */
  ghost function AddNeed(strs: Str, name: Str, len: nat): nat {
    12 + Align4(len) + if Occurs(strs, name) then 0 else |name| + 1
  }

  /** fdt_add_property_: a property with len bytes of value, first in the node at p. */
  method AddProperty(fdt: Blob, nodeoffset: int, name: Str, len: nat, ghost p: Pos) returns (err: int, prop: int)
    requires Stands(fdt, p, nodeoffset) && 0 !in name
    modifies fdt, fdt.mem
    ensures fdt.Valid() && fdt.Reserve() == old(fdt.Reserve()) && fdt.totalsize == old(fdt.totalsize)
    ensures err == if !p.f.SubF? then -BADOFFSET else
                   if old(fdt.DataSize() + AddNeed(fdt.View().strs, name, len)) > fdt.totalsize then -NOSPACE else 0
    ensures err != 0 ==> fdt.View() == old(fdt.View()) && fdt.root == old(fdt.root)
                         && fdt.DataSize() == old(fdt.DataSize())
    ensures err == 0 ==> prop == Off(Enter(p).c) && prop + 12 + len <= fdt.sizeStruct
    ensures err == 0 ==> fdt.root == Plug(Enter(p).c, PropF(name, Block(fdt.View().struct, prop + 12, len), p.f.body))
    ensures err == 0 ==> fdt.DataSize() == old(fdt.DataSize() + AddNeed(fdt.View().strs, name, len))
    ensures err == 0 ==> old(fdt.View().strs) <= fdt.View().strs
  {
    hide Encodes, Plug, Off, Block, IsStringAt, Occurs;
    var v := fdt.Read();
    prop := CheckNodeOffset(v, nodeoffset, p);
    if prop < 0 {
      return prop, prop;
    }
    var namestroff, added := FindAddString(fdt, name);
    if namestroff < 0 {
      return namestroff, prop;
    }
    MoreStrings(v, if added then name + [0] else [], fdt.root);
    err := InsertProp(fdt, prop, namestroff, len, name, Enter(p));
    if err != 0 {
      if added {
        DelLastString(fdt, name);
        assert (v.strs + (name + [0]))[..|v.strs|] == v.strs;
      } else {
        assert v.strs + [] == v.strs;
      }
    }
  }

  lemma MoreStrings(v: Fdt, ext: Str, f: Forest)
    requires Encodes(v, f)
    ensures Encodes(Fdt(v.struct, v.strs + ext), f)
  {
    RepMoreStrings(v.strs, ext, v.struct[..FSize(f) + 4], Flat(f) + [End]);
  }

  /** The bytes of a property after part of its value has been overwritten. */
  lemma StoredProp(strs: Str, s: Str, o: nat, n: Str, d: Str, idx: nat, val: Str)
    requires o + TokSize(Prop(n, d)) <= |s| && idx + |val| <= |d| < INT_MAX
    requires Get32(s, o) == PROP && Get32(s, o + 4) == |d| && IsStringAt(strs, Get32(s, o + 8), n)
    requires s[o + 12..o + 12 + |d|] == d
    ensures var u := Overwrite(s, o + 12 + idx, val); var size := TokSize(Prop(n, Overwrite(d, idx, val)));
            && size == TokSize(Prop(n, d))
            && Spliced(s, u, o, size, size)
            && Reps(strs, Block(u, o, size), Prop(n, Overwrite(d, idx, val)))
  {
    hide Spliced, IsStringAt, Get32, Align4, Reps, Block;
    var u := Overwrite(s, o + 12 + idx, val);
    var size := TokSize(Prop(n, d));
    SplicedRefl(s, o, size);
    SplicedWrite(s, s, o, size, size, o + 12 + idx, val);
    OverwriteElse(s, o + 12 + idx, val, o);
    OverwriteElse(s, o + 12 + idx, val, o + 4);
    OverwriteElse(s, o + 12 + idx, val, o + 8);
    OverwriteWithin(s, o + 12, |d|, idx, val);
    BuildProp(strs, u, o, n, Overwrite(d, idx, val));
  }

  lemma OverwriteWithin(s: Str, o: nat, len: nat, idx: nat, val: Str)
    requires o + len <= |s| && idx + |val| <= len
    ensures Overwrite(s, o + idx, val)[o..o + len] == Overwrite(s[o..o + len], idx, val)
  {
    var x, y := Overwrite(s, o + idx, val)[o..o + len], Overwrite(s[o..o + len], idx, val);
    forall k | 0 <= k < len
      ensures x[k] == y[k]
    {
      assert y[k] == if idx <= k < idx + |val| then val[k - idx] else s[o + k];
    }
    assert x == y;
  }

  /** memcpy into the value of the property at q. */
  method StoreValue(fdt: Blob, prop: int, idx: nat, val: Str, ghost q: Pos)
    requires Stands(fdt, q, prop) && q.f.PropF? && Depth(q.c) > 0 && idx + |val| <= |q.f.data|
    modifies fdt`bytes, fdt`root, fdt.mem
    ensures fdt.Valid() && fdt.Reserve() == old(fdt.Reserve()) && fdt.View().strs == old(fdt.View().strs)
    ensures fdt.root == Plug(q.c, PropF(q.f.pname, Overwrite(q.f.data, idx, val), q.f.rest))
  {
    hide Encodes, Plug, Off, Spliced, Block, Overwrite, Get32, IsStringAt, Reps, TokSize;
    ghost var v := fdt.View();
    PropHere(v, q);
    PropRoom(q);
    fdt.Store(prop + 12 + idx, val);
    StoredProp(v.strs, v.struct, prop, q.f.pname, q.f.data, idx, val);
    ghost var d := Overwrite(q.f.data, idx, val);
    EditProp(v, fdt.View(), q.c, q.f, q.f.pname, d, q.f.rest);
    RootKept(q.c, q.f, PropF(q.f.pname, d, q.f.rest));
    fdt.root := Plug(q.c, PropF(q.f.pname, d, q.f.rest));
  }

  lemma PropRoom(q: Pos)
    requires q.f.PropF?
    ensures 12 + |q.f.data| <= TokSize(Prop(q.f.pname, q.f.data))
  {
  }

  /** The bytes that setting a property takes beyond those in use. */
  ghost function SetNeed(strs: Str, b: Forest, name: Str, len: nat): int {
    if HasProp(b, name) then Align4(len) - Align4(|PropData(b, name)|) else AddNeed(strs, name, len)
  }

  /** fdt_setprop_placeholder_namelen: the property is there with len bytes of value, at offset prop. */
  method SetPropPlaceholder(fdt: Blob, nodeoffset: int, name: Str, len: nat, ghost p: Pos) returns (err: int, prop: int)
    requires Stands(fdt, p, nodeoffset) && 0 !in name
    modifies fdt, fdt.mem
    ensures fdt.Valid() && fdt.Reserve() == old(fdt.Reserve()) && fdt.totalsize == old(fdt.totalsize)
    ensures err == if !p.f.SubF? then -BADOFFSET else
                   if old(fdt.DataSize() + SetNeed(fdt.View().strs, p.f.body, name, len)) > fdt.totalsize then -NOSPACE
                     else 0
    ensures err != 0 ==> fdt.View() == old(fdt.View()) && fdt.root == old(fdt.root)
                         && fdt.DataSize() == old(fdt.DataSize())
    ensures err == 0 ==> prop == Off(SetPos(p, name).c) && prop + 12 + len <= fdt.sizeStruct
    ensures err == 0 ==> fdt.root == Plug(SetPos(p, name).c,
            PropF(name, Block(fdt.View().struct, prop + 12, len), SetPos(p, name).f))
    ensures err == 0 ==> fdt.DataSize() == old(fdt.DataSize() + SetNeed(fdt.View().strs, p.f.body, name, len))
    ensures old(fdt.View().strs) <= fdt.View().strs
  {
    hide Encodes, Plug, Off, Block, AddNeed;
    var v := fdt.Read();
    prop := GetPropertyOffset(v, nodeoffset, name, p);
    if p.f.SubF? {
      FindHas(Enter(p), name);
      FindDepth(Enter(p), name);
    }
    if prop >= 0 {
      err := ResizeProperty(fdt, prop, len, FindProp(Enter(p), name).value);
    } else if prop == -NOTFOUND {
      err, prop := AddProperty(fdt, nodeoffset, name, len, p);
    } else {
      err := prop;
    }
  }

  /** fdt_setprop: afterwards the node at p has the property with value val. */
  method SetPropAt(fdt: Blob, nodeoffset: int, name: Str, val: Str, ghost p: Pos) returns (err: int)
    requires Stands(fdt, p, nodeoffset) && 0 !in name
    modifies fdt, fdt.mem
    ensures fdt.Valid() && fdt.Reserve() == old(fdt.Reserve()) && fdt.totalsize == old(fdt.totalsize)
    ensures err == if !p.f.SubF? then -BADOFFSET else
                   if old(fdt.DataSize() + SetNeed(fdt.View().strs, p.f.body, name, |val|)) > fdt.totalsize then
                     -NOSPACE else 0
    ensures err == 0 ==> fdt.root == InNode(p, SetProp(p.f.body, name, val))
    ensures err != 0 ==> fdt.View() == old(fdt.View()) && fdt.root == old(fdt.root)
    ensures old(fdt.View().strs) <= fdt.View().strs
  {
    hide Encodes, Plug, Off, SetNeed, InNode, SetPos;
    var prop;
    err, prop := SetPropPlaceholder(fdt, nodeoffset, name, |val|, p);
    if err != 0 {
      return;
    }
    ghost var h := SetPos(p, name);
    ghost var q := Pos(h.c, PropF(name, Block(fdt.View().struct, prop + 12, |val|), h.f));
    SetPosDepth(p, name);
    StoreValue(fdt, prop, 0, val, q);
    SetAt(p, name, val);
    assert Overwrite(q.f.data, 0, val) == val;
  }

  lemma SetPosDepth(p: Pos, name: Str)
    requires p.f.SubF?
    ensures Depth(SetPos(p, name).c) > 0
  {
    FindDepth(Enter(p), name);
  }

  lemma {:induction false} FindDepth(p: Pos, name: Str)
    ensures FindProp(p, name).Some? ==> Depth(FindProp(p, name).value.c) == Depth(p.c)
    decreases p.f
  {
    match p.f
    case PropF(n, _, _) => if n != name { FindDepth(Next(p), name); }
    case NopF(_) => FindDepth(Next(p), name);
    case _ =>
  }

  /** fdt_appendprop: afterwards the value is the old one, or nothing, followed by val. */
  method AppendProp(fdt: Blob, nodeoffset: int, name: Str, val: Str, ghost p: Pos) returns (err: int)
    requires Stands(fdt, p, nodeoffset) && 0 !in name
    modifies fdt, fdt.mem
    ensures fdt.Valid() && fdt.Reserve() == old(fdt.Reserve()) && fdt.totalsize == old(fdt.totalsize)
    ensures !p.f.SubF? ==> err == -BADOFFSET
    ensures p.f.SubF? ==>
            var all := (if HasProp(p.f.body, name) then PropData(p.f.body, name) else []) + val;
            && err == (if old(fdt.DataSize() + SetNeed(fdt.View().strs, p.f.body, name, |all|)) > fdt.totalsize then
               -NOSPACE else 0)
            && (err == 0 ==> fdt.root == InNode(p, SetProp(p.f.body, name, all)))
    ensures err != 0 ==> fdt.View() == old(fdt.View()) && fdt.root == old(fdt.root)
  {
    hide Encodes, Plug, Off, InNode, SetPos, AddNeed, Overwrite, Block, Get32, IsStringAt;
    var v := fdt.Read();
    var prop := GetPropertyOffset(v, nodeoffset, name, p);
    if p.f.SubF? {
      FindHas(Enter(p), name);
      FindDepth(Enter(p), name);
      SetPosIs(p, name);
    }
    if prop >= 0 {
      ghost var q := FindProp(Enter(p), name).value;
      err := LengthenValue(fdt, prop, val, q);
      SetAt(p, name, q.f.data + val);
    } else {
      err, prop := AddProperty(fdt, nodeoffset, name, |val|, p);
      if err != 0 {
        return;
      }
      ghost var d := Block(fdt.View().struct, prop + 12, |val|);
      StoreValue(fdt, prop, 0, val, Pos(SetPos(p, name).c, PropF(name, d, SetPos(p, name).f)));
      Appended([], d, val);
      SetAt(p, name, [] + val);
    }
  }

  /** The part of fdt_appendprop for a property that is there. */
  method LengthenValue(fdt: Blob, prop: int, val: Str, ghost q: Pos) returns (err: int)
    requires Stands(fdt, q, prop) && q.f.PropF? && Depth(q.c) > 0
    modifies fdt, fdt.mem
    ensures fdt.Valid() && fdt.Reserve() == old(fdt.Reserve()) && fdt.totalsize == old(fdt.totalsize)
    ensures err == if old(fdt.DataSize()) - Align4(|q.f.data|) + Align4(|q.f.data + val|) > fdt.totalsize then -NOSPACE
            else 0
    ensures err == 0 ==> fdt.root == Plug(q.c, PropF(q.f.pname, q.f.data + val, q.f.rest))
    ensures err != 0 ==> fdt.View() == old(fdt.View()) && fdt.root == old(fdt.root)
  {
    hide Encodes, Plug, Off, Overwrite, Block, Get32, IsStringAt;
    var v := fdt.Read();
    PropHere(v, q);
    var oldlen := Get32(v.struct, prop + 4);
    err := ResizeProperty(fdt, prop, oldlen + |val|, q);
    if err != 0 {
      return;
    }
    ghost var d := Block(fdt.View().struct, prop + 12, oldlen + |val|);
    StoreValue(fdt, prop, oldlen, val, Pos(q.c, PropF(q.f.pname, d, q.f.rest)));
    Appended(q.f.data, d, val);
  }

  lemma SetPosIs(p: Pos, name: Str)
    requires p.f.SubF?
    ensures SetPos(p, name) == match FindProp(Enter(p), name)
                               case Some(q) => Pos(q.c, q.f.rest)
                               case None => Pos(Enter(p).c, p.f.body)
  {
  }

  lemma Appended(a: Str, d: Str, val: Str)
    requires |d| == |a| + |val| && SameStart(a, d, |a|)
    ensures Overwrite(d, |a|, val) == a + val
  {
    assert d[..|a|] == a;
  }

  // ----- Taking tags out -----

  lemma StructSize(v: Fdt, p: Pos)
    requires Encodes(v, Whole(p))
    ensures |v.struct| >= Off(p.c) + Remaining(p) + 4
  {
    hide Whole, Off, Remaining;
    RemainingIs(p);
    FSizeFlat(Whole(p));
    SizeCat(Flat(Whole(p)), [End]);
    SizeOne(End);
  }

  /** fdt_splice_struct_ with nothing put in: the tags before g go. */
  method Cut(fdt: Blob, at: nat, len: nat, ghost c: Ctx, ghost f: Forest, ghost g: Forest, ghost before: seq<Tok>)
      returns (err: int)
    requires Stands(fdt, Pos(c, f), at) && Depth(c) > 0
    requires Flat(f) == before + Flat(g) && len == Size(before) && len <= FSize(f)
    modifies fdt, fdt.mem
    ensures fdt.Valid() && fdt.Reserve() == old(fdt.Reserve()) && fdt.totalsize == old(fdt.totalsize)
    ensures fdt.View().strs == old(fdt.View().strs)
    ensures err == 0 && fdt.root == Plug(c, g)
  {
    hide Encodes, Plug, Off, Size, Flat, Spliced, Block;
    ghost var v := fdt.View();
    StructSize(v, Pos(c, f));
    err := fdt.SpliceStruct(at, len, 0);
    ghost var w := fdt.View();
    EmptyBlock(w, at);
    assert Flat(g) == [] + Flat(g);
    EditTree(v, w, c, f, g, before, [], Flat(g));
    RootKept(c, f, g);
    fdt.root := Plug(c, g);
  }

  lemma EmptyBlock(w: Fdt, at: nat)
    requires at <= |w.struct|
    ensures Size([]) == 0 && RepAll(w.strs, Block(w.struct, at, 0), [])
  {
  }

  method DelProp(fdt: Blob, nodeoffset: int, name: Str, ghost p: Pos) returns (err: int)
    requires Stands(fdt, p, nodeoffset)
    modifies fdt, fdt.mem
    ensures fdt.Valid() && fdt.Reserve() == old(fdt.Reserve()) && fdt.totalsize == old(fdt.totalsize)
    ensures err == if !p.f.SubF? then -BADOFFSET else if HasProp(p.f.body, name) then 0 else -NOTFOUND
    ensures err == 0 ==> fdt.root == InNode(p, DropProp(p.f.body, name)) && fdt.View().strs == old(fdt.View().strs)
    ensures err != 0 ==> fdt.View() == old(fdt.View()) && fdt.root == old(fdt.root)
  {
    hide Encodes, Plug, Off, Get32, IsStringAt, FindProp, DropProp, Flat, Size, Align4;
    var v := fdt.Read();
    var prop := GetPropertyOffset(v, nodeoffset, name, p);
    if p.f.SubF? {
      FindHas(Enter(p), name);
      FindDepth(Enter(p), name);
    }
    if prop < 0 {
      return prop;
    }
    ghost var q := FindProp(Enter(p), name).value;
    PropHere(v, q);
    DropAt(Enter(p), name);
    CutProp(q.f);
    err := Cut(fdt, prop, 12 + Align4(Get32(v.struct, prop + 4)), q.c, q.f, q.f.rest, [Prop(q.f.pname, q.f.data)]);
    EnterPlug(p, DropProp(p.f.body, name));
  }

  lemma CutProp(f: Forest)
    requires f.PropF?
    ensures Flat(f) == [Prop(f.pname, f.data)] + Flat(f.rest)
    ensures Size([Prop(f.pname, f.data)]) == 12 + Align4(|f.data|) <= FSize(f)
  {
    SizeOne(Prop(f.pname, f.data));
  }

  lemma EnterPlug(p: Pos, b: Forest)
    requires p.f.SubF?
    ensures Plug(Enter(p).c, b) == InNode(p, b)
  {
  }

  /** fdt_del_node of a node other than the root. */
  method DelNode(fdt: Blob, nodeoffset: int, ghost p: Pos) returns (err: int)
    requires Stands(fdt, p, nodeoffset) && Depth(p.c) > 0
    modifies fdt, fdt.mem
    ensures fdt.Valid() && fdt.Reserve() == old(fdt.Reserve()) && fdt.totalsize == old(fdt.totalsize)
    ensures fdt.View().strs == old(fdt.View().strs)
    ensures err == if p.f.SubF? then 0 else -BADOFFSET
    ensures err == 0 ==> fdt.root == Plug(p.c, p.f.rest)
    ensures err != 0 ==> fdt.View() == old(fdt.View()) && fdt.root == old(fdt.root)
  {
    hide Encodes, Plug, Off;
    var v := fdt.Read();
    var endoffset := NodeEndOffset(v, nodeoffset, p);
    if endoffset < 0 {
      return endoffset;
    }
    AfterOff(p);
    err := Cut(fdt, nodeoffset, endoffset - nodeoffset, p.c, p.f, p.f.rest,
      [Begin(p.f.name)] + Flat(p.f.body) + [EndNode]);
  }

  lemma AfterOff(p: Pos)
    requires p.f.SubF?
    ensures Off(After(p).c) == Off(p.c) + Size([Begin(p.f.name)] + Flat(p.f.body) + [EndNode])
    ensures Size([Begin(p.f.name)] + Flat(p.f.body) + [EndNode]) <= FSize(p.f)
  {
    FrameSizePre(AfterSub(p.f.name, p.f.body));
  }

  // ----- Putting tags in -----

  function Zeros(n: nat): (z: Str)
    ensures |z| == n && forall i | 0 <= i < n :: z[i] == 0
  {
    seq(n, _ => 0)
  }

  /** The bytes of a node tag, the name padded with NULs. */
  function NodeBytes(name: Str): (b: Str)
    ensures |b| == TokSize(Begin(name))
  {
    Put32(BEGIN_NODE) + (name + Zeros(Align4(|name| + 1) - |name|))
  }

  lemma NodeBytesRep(strs: Str, name: Str)
    requires 0 !in name
    ensures Reps(strs, NodeBytes(name), Begin(name))
  {
    var b, z := NodeBytes(name), Zeros(Align4(|name| + 1) - |name|);
    PutGet32(BEGIN_NODE);
    assert b[0..4] == Put32(BEGIN_NODE);
    Get32Slice(b, 0, 4, 0);
    assert b[4..4 + |name|] == name;
    assert b[4 + |name|] == z[0];
  }

  lemma EndBytesRep(strs: Str)
    ensures Reps(strs, Put32(END_NODE), EndNode)
  {
    PutGet32(END_NODE);
  }

  lemma NewNodeRep(strs: Str, name: Str)
    requires 0 !in name
    ensures RepAll(strs, NodeBytes(name) + Put32(END_NODE), [Begin(name)] + [EndNode])
    ensures Size([Begin(name)] + [EndNode]) == |NodeBytes(name) + Put32(END_NODE)|
  {
    hide Reps, RepAll, NodeBytes;
    NodeBytesRep(strs, name);
    EndBytesRep(strs);
    RepOne(strs, NodeBytes(name), Begin(name));
    RepOne(strs, Put32(END_NODE), EndNode);
    RepJoin(strs, NodeBytes(name), [Begin(name)], Put32(END_NODE), [EndNode]);
  }

  /** Make room at offset at and put b, an encoding of new tags, before f. */
  method Insert(fdt: Blob, at: nat, b: Str, ghost c: Ctx, ghost f: Forest, ghost g: Forest, ghost after: seq<Tok>)
      returns (err: int)
    requires Stands(fdt, Pos(c, f), at) && Depth(c) > 0
    requires Flat(g) == after + Flat(f) && |b| == Size(after) && RepAll(fdt.View().strs, b, after)
    modifies fdt, fdt.mem
    ensures fdt.Valid() && fdt.Reserve() == old(fdt.Reserve()) && fdt.totalsize == old(fdt.totalsize)
    ensures fdt.View().strs == old(fdt.View().strs)
    ensures err == if old(fdt.DataSize()) + |b| > fdt.totalsize then -NOSPACE else 0
    ensures err != 0 ==> fdt.View() == old(fdt.View()) && fdt.root == old(fdt.root)
    ensures err == 0 ==> fdt.root == Plug(c, g)
  {
    hide Encodes, Plug, Off, Size, Flat, Spliced, Block, Overwrite, RepAll;
    ghost var v := fdt.View();
    StructSize(v, Pos(c, f));
    err := fdt.SpliceStruct(at, 0, |b|);
    if err != 0 {
      return;
    }
    ghost var t := fdt.View().struct;
    fdt.Store(at, b);
    SplicedWrite(v.struct, t, at, 0, |b|, at, b);
    OverwriteBlock(t, at, b);
    assert Flat(f) == [] + Flat(f);
    EmptyBlock(v, 0);
    EditTree(v, fdt.View(), c, f, g, [], after, Flat(f));
    RootKept(c, f, g);
    fdt.root := Plug(c, g);
  }

  /** The loop of fdt_add_subnode_namelen that finds where the properties of the node at p end. */
  method PropertiesEnd(v: Fdt, parentoffset: int, ghost p: Pos) returns (r: int)
    requires At(v, p, parentoffset) && p.f.SubF?
    ensures r == Off(SkipProps(Enter(p)).c)
  {
    hide Encodes, Plug, Off;
    ghost var q := Enter(p);
    var tag, next := TagAtOffset(v, parentoffset, p);
    r := next;
    tag, next := TagAtOffset(v, r, q);
    while tag == PROP || tag == NOP
      invariant At(v, q, r) && Depth(q.c) > 0 && SkipProps(q) == SkipProps(Enter(p))
      invariant tag == TagOf(TagAt(q)) && next == r + TokSize(TagAt(q))
      decreases Remaining(q)
    {
      q := Next(q);
      r := next;
      tag, next := TagAtOffset(v, r, q);
    }
  }

  /** fdt_add_subnode: the offset of the new node, or the error. */
  method AddSubnode(fdt: Blob, parentoffset: int, name: Str, ghost p: Pos) returns (r: int)
    requires Stands(fdt, p, parentoffset) && 0 !in name
    modifies fdt, fdt.mem
    ensures fdt.Valid() && fdt.Reserve() == old(fdt.Reserve()) && fdt.totalsize == old(fdt.totalsize)
    ensures fdt.View().strs == old(fdt.View().strs)
    ensures if !p.f.SubF? then r == -BADOFFSET else
            if FindSub(Enter(p), Named(name)).Some? then r == -EXISTS else
            if old(fdt.DataSize()) + 8 + Align4(|name| + 1) > fdt.totalsize then r == -NOSPACE else
            r == Off(SkipProps(Enter(p)).c) && fdt.root == InNode(p, AddSub(p.f.body, name))
    ensures r < 0 ==> fdt.View() == old(fdt.View()) && fdt.root == old(fdt.root)
  {
    hide Encodes, Plug, Off, Size, Flat, RepAll, NodeBytes, InNode, AddSub, FindSub, SkipProps;
    var v := fdt.Read();
    var found := SubnodeOffset(v, parentoffset, name, p);
    if found >= 0 {
      return -EXISTS;
    } else if found != -NOTFOUND {
      return found;
    }
    r := PropertiesEnd(v, parentoffset, p);
    ghost var q := SkipProps(Enter(p));
    NewNodeRep(v.strs, name);
    AddAt(Enter(p), name);
    EnterPlug(p, AddSub(p.f.body, name));
    NewNodeFlat(name, q.f);
    var err := Insert(fdt, r, NodeBytes(name) + Put32(END_NODE), q.c, q.f, SubF(name, Nil, q.f),
      [Begin(name)] + [EndNode]);
    if err != 0 {
      r := err;
    }
  }

  lemma NewNodeFlat(name: Str, f: Forest)
    ensures Flat(SubF(name, Nil, f)) == [Begin(name)] + [EndNode] + Flat(f)
  {
    assert Flat(Nil) == [];
    assert [Begin(name)] + [] == [Begin(name)];
  }

  // ----- Names -----

  /** The bytes of a node tag after its name has been replaced. */
  lemma RenamedBytes(strs: Str, s: Str, t: Str, o: nat, n: Str, name: Str)
    requires o + TokSize(Begin(n)) <= |s| && Get32(s, o) == BEGIN_NODE && 0 !in name
    requires Spliced(s, t, o + 4, Align4(|n| + 1), Align4(|name| + 1)) && o + TokSize(Begin(name)) <= |t|
    ensures var u := Overwrite(t, o + 4, name + [0]);
            && |u| == |t| && Spliced(s, u, o, TokSize(Begin(n)), TokSize(Begin(name)))
            && Reps(strs, Block(u, o, TokSize(Begin(name))), Begin(name))
  {
    hide Spliced, Overwrite, Align4, Get32;
    var u := Overwrite(t, o + 4, name + [0]);
    SplicedWiden(s, t, o, 4, Align4(|n| + 1), Align4(|name| + 1), 0);
    SplicedWrite(s, t, o, TokSize(Begin(n)), TokSize(Begin(name)), o + 4, name + [0]);
    ReadBefore(s, t, o + 4, Align4(|n| + 1), Align4(|name| + 1), o);
    OverwriteElse(t, o + 4, name + [0], o);
    OverwriteBlock(t, o + 4, name + [0]);
    NameInBlock(strs, u, o, name);
  }

  lemma NameInBlock(strs: Str, u: Str, o: nat, name: Str)
    requires o + TokSize(Begin(name)) <= |u| && Get32(u, o) == BEGIN_NODE && 0 !in name
    requires Block(u, o + 4, |name| + 1) == name + [0]
    ensures Reps(strs, Block(u, o, TokSize(Begin(name))), Begin(name))
  {
    var e := o + TokSize(Begin(name));
    Get32Slice(u, o, e, 0);
    SliceSlice(u, o, e, 4, 5 + |name|);
    var b := u[o..e];
    assert b[4..5 + |name|] == name + [0];
    assert b[4..4 + |name|] == b[4..5 + |name|][..|name|] == name;
    assert b[4 + |name|] == b[4..5 + |name|][|name|];
  }

  lemma BeginHere(v: Fdt, p: Pos)
    requires Encodes(v, Whole(p)) && p.f.SubF?
    ensures Off(p.c) + TokSize(Begin(p.f.name)) <= |v.struct| && Get32(v.struct, Off(p.c)) == BEGIN_NODE
  {
    hide Encodes, Whole, Off;
    RepsAt(v, p);
    Get32Slice(v.struct, Off(p.c), Off(p.c) + TokSize(Begin(p.f.name)), 0);
  }

  lemma RootRenamed(c: Ctx, f: Forest, name: Str)
    requires f.SubF? && IsRoot(Plug(c, f))
    ensures IsRoot(Plug(c, SubF(name, f.body, f.rest)))
  {
    if Depth(c) > 0 {
      RootKept(c, f, SubF(name, f.body, f.rest));
    } else if !c.Top? {
      NotRoot(c, f);
    }
  }

  lemma SubTail(n: Str, b: Forest, r: Forest)
    ensures Flat(SubF(n, b, r)) == [Begin(n)] + (Flat(b) + [EndNode] + Flat(r))
  {
  }

  /** fdt_set_name. */
  method SetName(fdt: Blob, nodeoffset: int, name: Str, ghost p: Pos) returns (err: int)
    requires Stands(fdt, p, nodeoffset) && 0 !in name
    modifies fdt, fdt.mem
    ensures fdt.Valid() && fdt.Reserve() == old(fdt.Reserve()) && fdt.totalsize == old(fdt.totalsize)
    ensures fdt.View().strs == old(fdt.View().strs)
    ensures err == if !p.f.SubF? then -BADOFFSET else
                   if old(fdt.DataSize()) - Align4(|p.f.name| + 1) + Align4(|name| + 1) > fdt.totalsize then -NOSPACE
                     else 0
    ensures err == 0 ==> fdt.root == Plug(p.c, SubF(name, p.f.body, p.f.rest))
    ensures err != 0 ==> fdt.View() == old(fdt.View()) && fdt.root == old(fdt.root)
  {
    hide Encodes, Plug, Off, Spliced, Block, Overwrite, Get32, Flat, Reps, Size;
    var v := fdt.Read();
    var oldname := GetName(v, nodeoffset, p);
    if oldname.None? {
      return -BADOFFSET;
    }
    BeginHere(v, p);
    err := fdt.SpliceStruct(nodeoffset + 4, Align4(|oldname.value| + 1), Align4(|name| + 1));
    if err != 0 {
      return;
    }
    ghost var t := fdt.View().struct;
    SplicedRoom(v.struct, t, nodeoffset + 4, Align4(|p.f.name| + 1), Align4(|name| + 1));
    fdt.Store(nodeoffset + 4, name + [0]);
    RenamedBytes(v.strs, v.struct, t, nodeoffset, p.f.name, name);
    RenameEdit(v, fdt.View(), p.c, p.f, name);
    RootRenamed(p.c, p.f, name);
    fdt.root := Plug(p.c, SubF(name, p.f.body, p.f.rest));
  }

  lemma SplicedRoom(s: Str, t: Str, p: nat, oldlen: nat, newlen: nat)
    requires Spliced(s, t, p, oldlen, newlen)
    ensures p + newlen <= |t|
  {
  }

  lemma RenameEdit(v: Fdt, w: Fdt, c: Ctx, f: Forest, name: Str)
    requires f.SubF? && Encodes(Fdt(v.struct, w.strs), Plug(c, f)) && |w.struct| < INT_MAX
    requires Spliced(v.struct, w.struct, Off(c), TokSize(Begin(f.name)), TokSize(Begin(name)))
    requires Off(c) + TokSize(Begin(name)) <= |w.struct|
             && Reps(w.strs, Block(w.struct, Off(c), TokSize(Begin(name))), Begin(name))
    ensures Encodes(w, Plug(c, SubF(name, f.body, f.rest)))
  {
    hide Encodes, Reps, Plug, Off, Spliced, TokSize, Block, Flat;
    SizeOne(Begin(f.name));
    SizeOne(Begin(name));
    RepOne(w.strs, Block(w.struct, Off(c), TokSize(Begin(name))), Begin(name));
    SubTail(f.name, f.body, f.rest);
    SubTail(name, f.body, f.rest);
    EditTree(v, w, c, f, SubF(name, f.body, f.rest), [Begin(f.name)], [Begin(name)],
      Flat(f.body) + [EndNode] + Flat(f.rest));
  }
}
