/** What each editing call of libfdt means for the content of a node, and where in the stream it happens. */
module Edits {
  import opened Bytes
  import opened Tree
  import opened Positions

  predicate HasProp(b: Forest, name: Str) {
    match b
    case PropF(n, _, r) => n == name || HasProp(r, name)
    case NopF(r) => HasProp(r, name)
    case _ => false
  }

  function PropData(b: Forest, name: Str): Str
    requires HasProp(b, name)
  {
    match b
    case PropF(n, d, r) => if n == name then d else PropData(r, name)
    case NopF(r) => PropData(r, name)
  }

  /** b with the value of property name replaced. */
  function PutProp(b: Forest, name: Str, val: Str): Forest
    requires HasProp(b, name)
  {
    match b
    case PropF(n, d, r) => if n == name then PropF(n, val, r) else PropF(n, d, PutProp(r, name, val))
    case NopF(r) => NopF(PutProp(r, name, val))
  }

  /** fdt_setprop: replace the value, or add the property before all others. */
  function SetProp(b: Forest, name: Str, val: Str): Forest {
    if HasProp(b, name) then PutProp(b, name, val) else PropF(name, val, b)
  }

  function DropProp(b: Forest, name: Str): Forest
    requires HasProp(b, name)
  {
    match b
    case PropF(n, d, r) => if n == name then r else PropF(n, d, DropProp(r, name))
    case NopF(r) => NopF(DropProp(r, name))
  }

  /** fdt_add_subnode: an empty node after the properties and before the other subnodes. */
  function AddSub(b: Forest, name: Str): Forest {
    match b
    case PropF(n, d, r) => PropF(n, d, AddSub(r, name))
    case NopF(r) => NopF(AddSub(r, name))
    case _ => SubF(name, Nil, b)
  }

  /** Where the content of a node is, seen from the node. */
  function InNode(p: Pos, b: Forest): Forest
    requires p.f.SubF?
  {
    Plug(p.c, SubF(p.f.name, b, p.f.rest))
  }

  /** The hole that a property called name fills when it is set on the node at p. */
  function SetPos(p: Pos, name: Str): Pos
    requires p.f.SubF?
  {
    match FindProp(Enter(p), name)
    case Some(q) => Pos(q.c, q.f.rest)
    case None => Enter(p)
  }

  lemma {:induction false} FindHas(p: Pos, name: Str)
    ensures FindProp(p, name).Some? <==> HasProp(p.f, name)
    ensures FindProp(p, name).Some? ==> FindProp(p, name).value.f.data == PropData(p.f, name)
    decreases p.f
  {
    match p.f
    case PropF(n, _, _) => if n != name { FindHas(Next(p), name); }
    case NopF(_) => FindHas(Next(p), name);
    case _ =>
  }

  lemma {:induction false} PutPropPos(p: Pos, name: Str, val: Str)
    requires HasProp(p.f, name)
    ensures FindProp(p, name).Some?
    ensures var q := FindProp(p, name).value;
            Plug(q.c, PropF(name, val, q.f.rest)) == Plug(p.c, PutProp(p.f, name, val))
    decreases p.f
  {
    match p.f
    case PropF(n, _, _) => if n != name { PutPropPos(Next(p), name, val); }
    case NopF(_) => PutPropPos(Next(p), name, val);
  }

  lemma {:induction false} DropAt(p: Pos, name: Str)
    requires HasProp(p.f, name)
    ensures FindProp(p, name).Some?
    ensures var q := FindProp(p, name).value; Plug(q.c, q.f.rest) == Plug(p.c, DropProp(p.f, name))
    decreases p.f
  {
    match p.f
    case PropF(n, _, _) => if n != name { DropAt(Next(p), name); }
    case NopF(_) => DropAt(Next(p), name);
  }

  /** Filling SetPos is setting the property. */
  lemma SetAt(p: Pos, name: Str, val: Str)
    requires p.f.SubF?
    ensures Plug(SetPos(p, name).c, PropF(name, val, SetPos(p, name).f)) == InNode(p, SetProp(p.f.body, name, val))
  {
    FindHas(Enter(p), name);
    if HasProp(p.f.body, name) {
      PutPropPos(Enter(p), name, val);
    }
  }

  /** The first position of a node's content that is neither a property nor a NOP. */
  function SkipProps(p: Pos): (q: Pos)
    ensures Whole(q) == Whole(p) && Depth(q.c) == Depth(p.c)
    decreases p.f
  {
    match p.f
    case PropF(_, _, _) => SkipProps(Next(p))
    case NopF(_) => SkipProps(Next(p))
    case _ => p
  }

  lemma {:induction false} AddAt(p: Pos, name: Str)
    ensures var q := SkipProps(p); Plug(q.c, SubF(name, Nil, q.f)) == Plug(p.c, AddSub(p.f, name))
    decreases p.f
  {
    match p.f
    case PropF(_, _, _) => AddAt(Next(p), name);
    case NopF(_) => AddAt(Next(p), name);
    case _ =>
  }

  // ----- NOPs -----

  function Nops(k: nat, f: Forest): Forest {
    if k == 0 then f else NopF(Nops(k - 1, f))
  }

  /** The tree that every reader sees: NOPs left out. */
  function Strip(f: Forest): Forest {
    match f
    case Nil => Nil
    case NopF(r) => Strip(r)
    case PropF(n, d, r) => PropF(n, d, Strip(r))
    case SubF(n, b, r) => SubF(n, Strip(b), Strip(r))
  }

  lemma {:induction false} StripNops(k: nat, f: Forest)
    ensures Strip(Nops(k, f)) == Strip(f)
  {
    if k > 0 {
      StripNops(k - 1, f);
    }
  }

  /** Trees that differ only by NOPs in a hole differ only by NOPs. */
  lemma {:induction false} StripPlug(c: Ctx, f: Forest, g: Forest)
    requires Strip(f) == Strip(g)
    ensures Strip(Plug(c, f)) == Strip(Plug(c, g))
  {
    if !c.Top? {
      StripPlug(c.up, Fill(c.frame, f), Fill(c.frame, g));
    }
  }
}
