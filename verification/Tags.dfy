/**
 * fdt_next_tag (libs/libfdt/fdt.c) on the bytes of a structure block, and what it reads at the
 * positions of an encoded tree.
 */
module Tags {
  import opened Bytes
  import opened Tree
  import opened Encoding
  import opened Positions

  /** What the read-only functions look at: the structure block and the strings block. */
  datatype Fdt = Fdt(struct: Str, strs: Str)

  /** The structure block encodes the tree f, followed by the end tag; what comes after that no one looks at. */
  ghost predicate Encodes(v: Fdt, f: Forest) {
    FSize(f) + 4 <= |v.struct| < INT_MAX && RepAll(v.strs, v.struct[..FSize(f) + 4], Flat(f) + [End])
  }

  lemma EncodesIs(v: Fdt, f: Forest, n: nat)
    requires n == FSize(f) + 4
    ensures Encodes(v, f) <==> n <= |v.struct| < INT_MAX && RepAll(v.strs, v.struct[..n], Flat(f) + [End])
  {
    hide RepAll, Flat, FSize;
  }

  /** A structure block encodes at most one tree. */
  lemma EncodesUnique(v: Fdt, f: Forest, g: Forest)
    requires Encodes(v, f) && Encodes(v, g)
    ensures f == g
  {
    hide *;
    EncodesIs(v, f, FSize(f) + 4);
    EncodesIs(v, g, FSize(g) + 4);
    DecodeUnique(v.strs, v.struct, FSize(f) + 4, FSize(g) + 4, f, g);
  }

  /** A structure block that ends with the end tag. */
  lemma EncodesWhole(v: Fdt, f: Forest)
    requires |v.struct| < INT_MAX && RepAll(v.strs, v.struct, Flat(f) + [End])
    ensures Encodes(v, f)
  {
    hide RepAll, Flat, FSize;
    FSizeFlat(f);
    SizeCat(Flat(f), [End]);
    assert [End][1..] == [] && v.struct[..|v.struct|] == v.struct;
  }

  /** Byte off of the structure block is the start of position p of the tree it encodes. */
  ghost predicate At(v: Fdt, p: Pos, off: int) {
    Encodes(v, Whole(p)) && off == Off(p.c)
  }

  /** Offset of the first NUL of b at or after i, or |b|. */
  function NulFrom(b: Str, i: nat): (e: nat)
    requires i <= |b|
    ensures i <= e <= |b| && 0 !in b[i..e]
    ensures e < |b| ==> b[e] == 0
    decreases |b| - i
  {
    if i == |b| || b[i] == 0 then i else
      var e := NulFrom(b, i + 1);
      assert b[i..e] == [b[i]] + b[i + 1..e];
      e
  }

  /** fdt_next_tag on the bytes of any structure block, well-formed or not: the tag and the next offset or error. */
  function TagStep(b: Str, start: int): (r: (nat, int))
    ensures r.1 >= 0 ==> 0 <= start < |b| && r.1 > start
  {
    if start < 0 || start + 4 > |b| then (END, -TRUNCATED) else
      var tag := Get32(b, start);
      var o := start + 4;
      if tag == BEGIN_NODE then
        var e := NulFrom(b, o);
        if e == |b| then (END, -BADSTRUCTURE) else (tag, Align4(e + 1))
      else if tag == PROP then
        if o + 4 > |b| then (END, -BADSTRUCTURE) else
          var len := Get32(b, o);
          if INT_MAX <= len + o || o + 8 + len > |b| then (END, -BADSTRUCTURE) else (tag, Align4(o + 8 + len))
      else if tag == END || tag == END_NODE || tag == NOP then (tag, Align4(o))
      else (END, -BADSTRUCTURE)
  }

  lemma NulIsEnd(b: Str, i: nat, n: Str)
    requires i + |n| < |b| && 0 !in n && b[i..i + |n|] == n && b[i + |n|] == 0
    ensures NulFrom(b, i) == i + |n|
  {
    var e := NulFrom(b, i);
    assert forall k | i <= k < i + |n| :: b[k] == n[k - i];
    assert e >= i + |n|;
    assert forall k | i <= k < e :: b[k] == b[i..e][k - i];
  }

  lemma BeginStep(b: Str, start: nat, x: Str, n: Str)
    requires Aligned(start) && start + TokSize(Begin(n)) <= |b| < INT_MAX
    requires x == b[start..start + TokSize(Begin(n))]
    requires Get32(x, 0) == BEGIN_NODE && 0 !in n && x[4..4 + |n|] == n && x[4 + |n|] == 0
    ensures TagStep(b, start) == (BEGIN_NODE, start + TokSize(Begin(n)))
  {
    Get32Slice(b, start, start + TokSize(Begin(n)), 0);
    var o := start + 4;
    assert b[o..o + |n|] == x[4..4 + |n|];
    assert b[o + |n|] == x[4 + |n|];
    NulIsEnd(b, o, n);
    AlignedSum(start, 4);
    AlignShift(o, |n| + 1);
  }

  lemma PropStep(b: Str, start: nat, x: Str, p: Str, d: Str)
    requires Aligned(start) && start + TokSize(Prop(p, d)) <= |b| < INT_MAX
    requires x == b[start..start + TokSize(Prop(p, d))]
    requires Get32(x, 0) == PROP && Get32(x, 4) == |d|
    ensures TagStep(b, start) == (PROP, start + TokSize(Prop(p, d)))
  {
    Get32Slice(b, start, start + TokSize(Prop(p, d)), 0);
    Get32Slice(b, start, start + TokSize(Prop(p, d)), 4);
    AlignedSum(start, 12);
    AlignShift(start + 12, |d|);
  }

  /** On an encoded stream fdt_next_tag reads the next tag and steps over exactly its bytes. */
  lemma TagStepReps(strs: Str, b: Str, start: nat, t: Tok)
    requires Aligned(start) && start + TokSize(t) <= |b| < INT_MAX
    requires Reps(strs, b[start..start + TokSize(t)], t)
    ensures TagStep(b, start) == (TagOf(t), start + TokSize(t))
  {
    var x := b[start..start + TokSize(t)];
    match t
    case Begin(n) => BeginStep(b, start, x, n);
    case Prop(p, d) => PropStep(b, start, x, p, d);
    case _ =>
      Get32Slice(b, start, start + 4, 0);
      AlignShift(start, 4);
  }

  lemma RepMiddle(strs: Str, b: Str, pre: seq<Tok>, t: Tok, post: seq<Tok>)
    requires RepAll(strs, b, pre + ([t] + post))
    ensures Size(pre) + TokSize(t) <= |b|
    ensures Reps(strs, b[Size(pre)..Size(pre) + TokSize(t)], t)
    ensures post != [] ==> Size(pre) + TokSize(t) < |b|
  {
    RepSplit(strs, b, pre, [t] + post);
    var d := b[Size(pre)..];
    assert ([t] + post)[0] == t && ([t] + post)[1..] == post;
    assert d[..TokSize(t)] == b[Size(pre)..Size(pre) + TokSize(t)];
  }

  /** The bytes at a position of an encoded tree. */
  lemma RepsAt(v: Fdt, p: Pos)
    requires Encodes(v, Whole(p))
    ensures Off(p.c) + TokSize(TagAt(p)) <= |v.struct|
    ensures Reps(v.strs, v.struct[Off(p.c)..Off(p.c) + TokSize(TagAt(p))], TagAt(p))
    ensures !TagAt(p).End? ==> Off(p.c) + TokSize(TagAt(p)) < |v.struct|
  {
    hide RepAll, Reps, Flat, Whole, Pre, Off, Size, TokSize, TagAt, FSize;
    var post := StreamAt(p);
    var b := v.struct[..FSize(Whole(p)) + 4];
    RepMiddle(v.strs, b, Pre(p.c), TagAt(p), post);
    assert b[Off(p.c)..Off(p.c) + TokSize(TagAt(p))] == v.struct[Off(p.c)..Off(p.c) + TokSize(TagAt(p))];
  }

  /** fdt_next_tag at a position of an encoded tree. */
  lemma TagStepAt(v: Fdt, p: Pos)
    requires Encodes(v, Whole(p))
    ensures TagStep(v.struct, Off(p.c)) == (TagOf(TagAt(p)), Off(p.c) + TokSize(TagAt(p)))
    ensures Off(p.c) + TokSize(TagAt(p)) <= |v.struct|
  {
    hide RepAll, Reps, Flat, Whole, Off, TokSize, TagAt, TagOf, TagStep;
    RepsAt(v, p);
    OffAligned(p.c);
    TagStepReps(v.strs, v.struct, Off(p.c), TagAt(p));
  }

  /** fdt_offset_ptr: the len bytes at offset are inside the structure block. */
  predicate InStruct(v: Fdt, offset: int, len: nat) {
    0 <= offset && offset + len <= |v.struct|
  }

  method SkipName(v: Fdt, o: nat) returns (i: nat)
    requires o <= |v.struct|
    ensures i == NulFrom(v.struct, o)
  {
    i := o;
    while InStruct(v, i, 1) && v.struct[i] != 0
      invariant o <= i <= |v.struct|
      invariant NulFrom(v.struct, o) == NulFrom(v.struct, i)
      decreases |v.struct| - i
    {
      i := i + 1;
    }
  }

  method NextTag(v: Fdt, startoffset: int) returns (tag: nat, nextoffset: int)
    ensures (tag, nextoffset) == TagStep(v.struct, startoffset)
  {
    nextoffset := -TRUNCATED;
    if !InStruct(v, startoffset, 4) {
      return END, nextoffset;
    }
    tag := Get32(v.struct, startoffset);
    var offset := startoffset + 4;
    nextoffset := -BADSTRUCTURE;
    if tag == BEGIN_NODE {
      var i := SkipName(v, offset);
      if !InStruct(v, i, 1) {
        return END, nextoffset;
      }
      offset := i + 1;
    } else if tag == PROP {
      if !InStruct(v, offset, 4) {
        return END, nextoffset;
      }
      var len := Get32(v.struct, offset);
      if INT_MAX <= len + offset {
        return END, nextoffset;
      }
      offset := offset + 8 + len;
    } else if tag != END && tag != END_NODE && tag != NOP {
      return END, nextoffset;
    }
    if !InStruct(v, startoffset, offset - startoffset) {
      return END, nextoffset;
    }
    nextoffset := Align4(offset);
  }

  /** fdt_next_tag at a position. */
  method TagAtOffset(v: Fdt, offset: int, ghost p: Pos) returns (tag: nat, next: int)
    requires At(v, p, offset)
    ensures tag == TagOf(TagAt(p)) && next == Off(p.c) + TokSize(TagAt(p)) <= |v.struct|
  {
    TagStepAt(v, p);
    tag, next := NextTag(v, offset);
  }
}
