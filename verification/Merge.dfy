/**
 * Merging an overlay node into a base node (libs/libfdt/fdt_overlay.c, overlay_apply_node) as a
 * function of the two trees.
 */
module Merge {
  import opened Bytes
  import opened Tree
  import opened Positions
  import opened Edits

  predicate HasSub(b: Forest, name: Str) {
    match b
    case Nil => false
    case SubF(n, _, r) => NodeNameEq(n, name) || HasSub(r, name)
    case _ => HasSub(b.rest, name)
  }

  /** What the first subnode that name names contains. */
  function SubBody(b: Forest, name: Str): (k: Forest)
    requires HasSub(b, name)
  {
    match b
    case SubF(n, k, r) => if NodeNameEq(n, name) then k else SubBody(r, name)
    case NopF(r) => SubBody(r, name)
    case PropF(_, _, r) => SubBody(r, name)
  }

  /** The name the first subnode that n names really has. */
  function SubName(b: Forest, n: Str): Str
    requires HasSub(b, n)
  {
    match b
    case SubF(m, _, r) => if NodeNameEq(m, n) then m else SubName(r, n)
    case NopF(r) => SubName(r, n)
    case PropF(_, _, r) => SubName(r, n)
  }

  /** b with k as the content of the first subnode that name names. */
  function PutSub(b: Forest, name: Str, k: Forest): Forest
    requires HasSub(b, name)
  {
    match b
    case SubF(n, j, r) => if NodeNameEq(n, name) then SubF(n, k, r) else SubF(n, j, PutSub(r, name, k))
    case NopF(r) => NopF(PutSub(r, name, k))
    case PropF(n, d, r) => PropF(n, d, PutSub(r, name, k))
  }

  function WithSub(b: Forest, name: Str): (r: Forest)
    ensures HasSub(r, name)
  {
    if HasSub(b, name) then b else
      AddedIsThere(b, name);
      AddSub(b, name)
  }

  lemma AddedIsThere(b: Forest, name: Str)
    ensures HasSub(AddSub(b, name), name)
  {
  }

  /** The properties of the overlay node, set one after the other. */
  function ApplyProps(b: Forest, o: Forest): Forest
    decreases o
  {
    match o
    case PropF(n, d, r) => ApplyProps(SetProp(b, n, d), r)
    case NopF(r) => ApplyProps(b, r)
    case _ => b
  }

  /** The subnodes of the overlay node, merged into those of the same name, one after the other. */
  function ApplySubs(b: Forest, o: Forest): Forest
    decreases o, 0
  {
    match o
    case Nil => b
    case SubF(n, k, r) =>
      var w := WithSub(b, n);
      ApplySubs(PutSub(w, n, Apply(SubBody(w, n), k)), r)
    case _ => ApplySubs(b, o.rest)
  }

  /** overlay_apply_node: content b of a base node, overlaid with content o of an overlay node. */
  function Apply(b: Forest, o: Forest): Forest
    decreases o, 1
  {
    ApplySubs(ApplyProps(b, o), o)
  }

  // ----- Where the merge happens in the stream -----

  lemma {:induction false} FindHasSub(p: Pos, name: Str)
    ensures FindSub(p, Named(name)).Some? <==> HasSub(p.f, name)
    ensures FindSub(p, Named(name)).Some? ==> FindSub(p, Named(name)).value.f.body == SubBody(p.f, name)
    decreases p.f
  {
    match p.f
    case Nil =>
    case SubF(n, b, r) => if !NodeNameEq(n, name) { FindHasSub(After(p), name); }
    case _ => FindHasSub(Next(p), name);
  }

  lemma {:induction false} PutSubAt(p: Pos, name: Str, k: Forest)
    requires HasSub(p.f, name)
    ensures FindSub(p, Named(name)).Some?
    ensures var q := FindSub(p, Named(name)).value; InNode(q, k) == Plug(p.c, PutSub(p.f, name, k))
    decreases p.f
  {
    match p.f
    case SubF(n, b, r) => if !NodeNameEq(n, name) { PutSubAt(After(p), name, k); }
    case NopF(_) => PutSubAt(Next(p), name, k);
    case PropF(_, _, _) => PutSubAt(Next(p), name, k);
  }

  /** The node that fdt_add_subnode puts in is the one a search for its name then finds. */
  lemma {:induction false} AddedFound(p: Pos, name: Str)
    requires !HasSub(p.f, name)
    ensures var q := SkipProps(p);
            FindSub(Pos(p.c, AddSub(p.f, name)), Named(name)) == Some(Pos(q.c, SubF(name, Nil, q.f)))
    decreases p.f
  {
    match p.f
    case PropF(n, d, r) => AddedFound(Next(p), name);
    case NopF(r) => AddedFound(Next(p), name);
    case _ =>
  }

  lemma {:induction false} ApplyFirst(b: Forest, p: Pos)
    ensures ApplyProps(b, p.f) == match FirstProp(p)
                                  case None => b
                                  case Some(q) => ApplyProps(SetProp(b, q.f.pname, q.f.data), q.f.rest)
    decreases p.f
  {
    if p.f.NopF? {
      ApplyFirst(b, Next(p));
    }
  }

  lemma {:induction false} ApplyNext(b: Forest, p: Pos)
    ensures ApplySubs(b, p.f) == match FindSub(p, Any)
                                 case None => b
                                 case Some(q) =>
                                   var w := WithSub(b, q.f.name);
                                   ApplySubs(PutSub(w, q.f.name, Apply(SubBody(w, q.f.name), q.f.body)), q.f.rest)
    decreases p.f
  {
    match p.f
    case Nil =>
    case SubF(_, _, _) =>
    case _ => ApplyNext(b, Next(p));
  }
}
