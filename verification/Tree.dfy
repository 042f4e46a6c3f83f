/**
 * Device trees and the tag stream that flattens them (Devicetree Specification v0.4, section 5.4).
 *
 * A Forest is what a node contains, item by item and in order: properties, subnodes, and the
 * NOP tags the format allows between them.  A Ctx is a Forest with one hole, so "the node at
 * this offset" is a pair of a context and the Forest that fills it.
 */
module Tree {
  import opened Bytes

  datatype Tok = Begin(name: Str) | EndNode | Prop(pname: Str, data: Str) | Nop | End

  datatype Forest =
    | Nil
    | NopF(rest: Forest)
    | PropF(pname: Str, data: Str, rest: Forest)
    | SubF(name: Str, body: Forest, rest: Forest)

  /** One step from a hole out to the Forest around it: what precedes it, or the node it is in. */
  datatype Frame =
    | AfterNop
    | AfterProp(pname: Str, data: Str)
    | AfterSub(name: Str, body: Forest)
    | InBody(name: Str, rest: Forest)

  datatype Ctx = Top | In(frame: Frame, up: Ctx)

  /** Bytes a tag takes in the structure block, with its name or value padded to a tag boundary. */
  function TokSize(t: Tok): (n: nat)
    ensures n >= 4
  {
    match t
    case Begin(name) => 4 + Align4(|name| + 1)
    case Prop(_, data) => 12 + Align4(|data|)
    case _ => 4
  }

  function Size(ts: seq<Tok>): (n: nat)
  {
    if ts == [] then 0 else TokSize(ts[0]) + Size(ts[1..])
  }

  function Flat(f: Forest): seq<Tok> {
    match f
    case Nil => []
    case NopF(r) => [Nop] + Flat(r)
    case PropF(p, d, r) => [Prop(p, d)] + Flat(r)
    case SubF(n, b, r) => [Begin(n)] + Flat(b) + [EndNode] + Flat(r)
  }

  function FSize(f: Forest): (n: nat) {
    match f
    case Nil => 0
    case NopF(r) => 4 + FSize(r)
    case PropF(p, d, r) => TokSize(Prop(p, d)) + FSize(r)
    case SubF(n, b, r) => TokSize(Begin(n)) + FSize(b) + 4 + FSize(r)
  }

  function Fill(fr: Frame, f: Forest): Forest {
    match fr
    case AfterNop => NopF(f)
    case AfterProp(p, d) => PropF(p, d, f)
    case AfterSub(n, b) => SubF(n, b, f)
    case InBody(n, r) => SubF(n, f, r)
  }

  function FramePre(fr: Frame): seq<Tok> {
    match fr
    case AfterNop => [Nop]
    case AfterProp(p, d) => [Prop(p, d)]
    case AfterSub(n, b) => [Begin(n)] + Flat(b) + [EndNode]
    case InBody(n, _) => [Begin(n)]
  }

  function FramePost(fr: Frame): seq<Tok> {
    if fr.InBody? then [EndNode] + Flat(fr.rest) else []
  }

  function FrameSize(fr: Frame): nat {
    match fr
    case AfterNop => 4
    case AfterProp(p, d) => TokSize(Prop(p, d))
    case AfterSub(n, b) => TokSize(Begin(n)) + FSize(b) + 4
    case InBody(n, _) => TokSize(Begin(n))
  }

  /** The Forest c describes, with f in its hole. */
  function Plug(c: Ctx, f: Forest): Forest
    decreases c
  {
    if c.Top? then f else Plug(c.up, Fill(c.frame, f))
  }

  function Pre(c: Ctx): seq<Tok> {
    if c.Top? then [] else Pre(c.up) + FramePre(c.frame)
  }

  function Post(c: Ctx): seq<Tok> {
    if c.Top? then [] else FramePost(c.frame) + Post(c.up)
  }

  /** Offset of the hole of c in the structure block. */
  function Off(c: Ctx): nat {
    if c.Top? then 0 else Off(c.up) + FrameSize(c.frame)
  }

  lemma TokAligned(t: Tok)
    ensures Aligned(TokSize(t))
  {
    if t.Begin? {
      AlignFacts(|t.name| + 1);
      AlignedSum(4, Align4(|t.name| + 1));
    } else if t.Prop? {
      AlignFacts(|t.data|);
      AlignedSum(12, Align4(|t.data|));
    }
  }

  lemma {:induction false} FSizeAligned(f: Forest)
    ensures Aligned(FSize(f))
  {
    match f
    case Nil =>
    case NopF(r) =>
      FSizeAligned(r);
      AlignedSum(4, FSize(r));
    case PropF(p, d, r) =>
      FSizeAligned(r);
      TokAligned(Prop(p, d));
      AlignedSum(TokSize(Prop(p, d)), FSize(r));
    case SubF(n, b, r) =>
      FSizeAligned(b);
      FSizeAligned(r);
      TokAligned(Begin(n));
      AlignedSum(TokSize(Begin(n)), FSize(b));
      AlignedSum(TokSize(Begin(n)) + FSize(b), 4);
      AlignedSum(TokSize(Begin(n)) + FSize(b) + 4, FSize(r));
  }

  lemma {:induction false} OffAligned(c: Ctx)
    ensures Aligned(Off(c))
  {
    if !c.Top? {
      OffAligned(c.up);
      var fr := c.frame;
      FSizeAligned(Fill(fr, Nil));
      if fr.InBody? {
        TokAligned(Begin(fr.name));
      }
      assert fr.AfterSub? || fr.AfterNop? || fr.AfterProp? ==> FrameSize(fr) == FSize(Fill(fr, Nil));
      AlignedSum(Off(c.up), FrameSize(fr));
    }
  }

  lemma {:induction false} SizeCat(a: seq<Tok>, b: seq<Tok>)
    ensures Size(a + b) == Size(a) + Size(b)
  {
    if a == [] {
      assert a + b == b;
    } else {
      assert (a + b)[1..] == a[1..] + b;
      SizeCat(a[1..], b);
    }
  }

  lemma {:induction false} FSizeFlat(f: Forest)
    ensures Size(Flat(f)) == FSize(f)
  {
    match f
    case Nil =>
    case NopF(r) =>
      FSizeFlat(r);
      SizeCat([Nop], Flat(r));
    case PropF(p, d, r) =>
      FSizeFlat(r);
      SizeCat([Prop(p, d)], Flat(r));
    case SubF(n, b, r) =>
      FSizeFlat(b);
      FSizeFlat(r);
      SizeCat([Begin(n)], Flat(b));
      SizeCat([Begin(n)] + Flat(b), [EndNode]);
      SizeCat([Begin(n)] + Flat(b) + [EndNode], Flat(r));
  }

  lemma FrameSizePre(fr: Frame)
    ensures Size(FramePre(fr)) == FrameSize(fr)
  {
    if fr.AfterSub? {
      FSizeFlat(fr.body);
      SizeCat([Begin(fr.name)], Flat(fr.body));
      SizeCat([Begin(fr.name)] + Flat(fr.body), [EndNode]);
    }
  }

  lemma {:induction false} OffPre(c: Ctx)
    ensures Size(Pre(c)) == Off(c)
  {
    if !c.Top? {
      OffPre(c.up);
      FrameSizePre(c.frame);
      SizeCat(Pre(c.up), FramePre(c.frame));
    }
  }

  lemma FlatFill(fr: Frame, f: Forest)
    ensures Flat(Fill(fr, f)) == FramePre(fr) + Flat(f) + FramePost(fr)
  {
    match fr
    case InBody(n, r) => assert [Begin(n)] + Flat(f) + [EndNode] + Flat(r) ==
      [Begin(n)] + Flat(f) + ([EndNode] + Flat(r));
    case _ => assert FramePost(fr) == [];
  }

  /** Filling a hole touches nothing before or after it. */
  lemma {:induction false} FlatPlug(c: Ctx, f: Forest)
    ensures Flat(Plug(c, f)) == Pre(c) + Flat(f) + Post(c)
    decreases c
  {
    if c.Top? {
      assert Flat(f) == [] + Flat(f) + [];
    } else {
      FlatPlug(c.up, Fill(c.frame, f));
      FlatFill(c.frame, f);
      Regroup(Pre(c.up), FramePre(c.frame), Flat(f), FramePost(c.frame), Post(c.up));
    }
  }

  lemma Regroup<T>(a: seq<T>, b: seq<T>, c: seq<T>, d: seq<T>, e: seq<T>)
    ensures a + (b + c + d) + e == (a + b) + c + (d + e)
  {
  }
}
