/** overlay_apply_node (libs/libfdt/fdt_overlay.c) on two flattened trees. */
module OverlayMerge {
  import opened Bytes
  import opened Tree
  import opened Encoding
  import opened Positions
  import opened Tags
  import opened FdtRead
  import opened Blobs
  import opened Edits
  import opened FdtRw
  import opened Merge

  /** fdt_getprop_by_offset. */
  method GetPropByOffset(v: Fdt, offset: int, ghost q: Pos) returns (name: Str, val: Str)
    requires At(v, q, offset) && q.f.PropF?
    ensures name == q.f.pname && val == q.f.data && 0 !in name
  {
    hide Encodes, Whole, Off;
    PropHere(v, q);
    var s := GetString(v, Get32(v.struct, offset + 8));
    StringUnique(v.strs, Get32(v.struct, offset + 8), s.value, q.f.pname);
    name := s.value;
    val := v.struct[offset + 12..offset + 12 + Get32(v.struct, offset + 4)];
  }

  lemma NameHasNoNul(v: Fdt, q: Pos)
    requires Encodes(v, Whole(q)) && q.f.SubF?
    ensures 0 !in q.f.name
  {
    hide Encodes, Whole, Off;
    RepsAt(v, q);
  }

  /** The position of the node at p once its content is b. */
  function Holding(p: Pos, b: Forest): Pos
    requires p.f.SubF?
  {
    Pos(p.c, SubF(p.f.name, b, p.f.rest))
  }

  /** r is where the walk over a node's properties has arrived, at q. */
  ghost predicate AtProp(v: Fdt, q: Option<Pos>, r: int) {
    if q.None? then r < 0 else r >= 0 && At(v, q.value, r) && q.value.f.PropF? && Depth(q.value.c) > 0
  }

  ghost predicate AtSub(v: Fdt, s: Option<Pos>, r: int) {
    if s.None? then r < 0 else r >= 0 && At(v, s.value, r) && s.value.f.SubF? && Depth(s.value.c) > 0
  }

  /** One turn of the subnode loop: the overlay subnode k merged into its namesake in b. */
  ghost function MergeChild(b: Forest, k: Forest): Forest
    requires k.SubF?
  {
    var w := WithSub(b, k.name);
    PutSub(w, k.name, Apply(SubBody(w, k.name), k.body))
  }

  /** What is left of the property loop with b built so far and q the next property. */
  ghost function RestProps(b: Forest, q: Option<Pos>): Forest
    requires q.Some? ==> q.value.f.PropF?
  {
    if q.None? then b else ApplyProps(SetProp(b, q.value.f.pname, q.value.f.data), q.value.f.rest)
  }

  ghost function RestSubs(b: Forest, s: Option<Pos>): Forest
    requires s.Some? ==> s.value.f.SubF?
  {
    if s.None? then b else ApplySubs(MergeChild(b, s.value.f), s.value.f.rest)
  }

  method FirstPropOf(v: Fdt, node: int, ghost o: Pos) returns (r: int, ghost q: Option<Pos>)
    requires At(v, o, node) && o.f.SubF?
    ensures AtProp(v, q, r) && (q.Some? ==> q.value.f.PropF?)
    ensures forall b :: ApplyProps(b, o.f.body) == RestProps(b, q)
  {
    hide Encodes, Whole, Off, ApplyProps;
    r := FirstPropertyOffset(v, node, o);
    q := FirstProp(Enter(o));
    forall b ensures ApplyProps(b, o.f.body) == RestProps(b, q) { ApplyFirst(b, Enter(o)); }
  }

  method NextPropOf(v: Fdt, property: int, ghost p: Pos) returns (r: int, ghost q: Option<Pos>)
    requires AtProp(v, Some(p), property) && p.f.PropF?
    ensures AtProp(v, q, r) && (q.Some? ==> q.value.f.PropF? && Remaining(q.value) < Remaining(p))
    ensures forall b :: ApplyProps(b, p.f.rest) == RestProps(b, q)
  {
    hide Encodes, Whole, Off, ApplyProps;
    r := NextPropertyOffset(v, property, p);
    q := FirstProp(Next(p));
    forall b ensures ApplyProps(b, p.f.rest) == RestProps(b, q) { ApplyFirst(b, Next(p)); }
  }

  method FirstSubOf(v: Fdt, node: int, ghost o: Pos) returns (r: int, ghost s: Option<Pos>)
    requires At(v, o, node) && o.f.SubF?
    ensures AtSub(v, s, r) && (s.Some? ==> s.value.f.SubF? && FSize(s.value.f) <= FSize(o.f.body))
    ensures forall b :: ApplySubs(b, o.f.body) == RestSubs(b, s)
  {
    hide Encodes, Whole, Off, ApplySubs, Apply, PutSub, SubBody, WithSub;
    r := FirstSubnode(v, node, o);
    s := FindSub(Enter(o), Any);
    forall b ensures ApplySubs(b, o.f.body) == RestSubs(b, s) { ApplyNext(b, Enter(o)); }
  }

  method NextSubOf(v: Fdt, subnode: int, ghost p: Pos) returns (r: int, ghost s: Option<Pos>)
    requires AtSub(v, Some(p), subnode) && p.f.SubF?
    ensures AtSub(v, s, r)
    ensures s.Some? ==> s.value.f.SubF? && FSize(s.value.f) <= FSize(p.f) && Remaining(s.value) < Remaining(p)
    ensures forall b :: ApplySubs(b, p.f.rest) == RestSubs(b, s)
  {
    hide Encodes, Whole, Off, ApplySubs, Apply, PutSub, SubBody, WithSub;
    r := NextSubnode(v, subnode, p);
    s := FindSub(After(p), Any);
    forall b ensures ApplySubs(b, p.f.rest) == RestSubs(b, s) { ApplyNext(b, After(p)); }
  }

  /** The property loop of overlay_apply_node. */
  method ApplyNodeProps(fdt: Blob, target: int, fdto: Fdt, node: int, ghost p: Pos, ghost o: Pos)
    returns (ret: int, ghost b: Forest)
    requires Stands(fdt, p, target) && p.f.SubF?
    requires At(fdto, o, node) && o.f.SubF?
    modifies fdt, fdt.mem
    ensures Stands(fdt, Holding(p, b), target)
    ensures fdt.Reserve() == old(fdt.Reserve()) && fdt.totalsize == old(fdt.totalsize)
    ensures ret == 0 || ret == -NOSPACE
    ensures ret == 0 ==> b == ApplyProps(p.f.body, o.f.body)
  {
    hide Encodes, Whole, Off, SetProp, SetNeed, ApplyProps, Remaining;
    b := p.f.body;
    var property;
    ghost var q;
    property, q := FirstPropOf(fdto, node, o);
    while property >= 0
      invariant AtProp(fdto, q, property) && (q.Some? ==> q.value.f.PropF?)
      invariant Stands(fdt, Holding(p, b), target)
      invariant fdt.Reserve() == old(fdt.Reserve()) && fdt.totalsize == old(fdt.totalsize)
      invariant ApplyProps(p.f.body, o.f.body) == RestProps(b, q)
      decreases if q.Some? then Remaining(q.value) + 1 else 0
    {
      var name, val := GetPropByOffset(fdto, property, q.value);
      ret := SetPropAt(fdt, target, name, val, Holding(p, b));
      if ret != 0 {
        return;
      }
      b := SetProp(b, name, val);
      HoldingIs(p, b);
      property, q := NextPropOf(fdto, property, q.value);
    }
    ret := 0;
  }

  lemma HoldingIs(p: Pos, b: Forest)
    requires p.f.SubF?
    ensures InNode(p, b) == Whole(Holding(p, b))
    ensures forall b' :: InNode(Holding(p, b'), b) == InNode(p, b)
  {
  }

  /** The subnode called name of the node at p, which is added if it is not there. */
  method EnsureSubnode(fdt: Blob, target: int, name: Str, ghost p: Pos) returns (nnode: int, ghost b: Forest)
    requires Stands(fdt, p, target) && p.f.SubF? && 0 !in name
    modifies fdt, fdt.mem
    ensures Stands(fdt, Holding(p, b), target)
    ensures fdt.Reserve() == old(fdt.Reserve()) && fdt.totalsize == old(fdt.totalsize)
    ensures nnode >= 0 || nnode == -NOSPACE
    ensures nnode >= 0 ==> b == WithSub(p.f.body, name)
    ensures nnode >= 0 ==> FindSub(Enter(Holding(p, b)), Named(name)).Some?
                           && nnode == Off(FindSub(Enter(Holding(p, b)), Named(name)).value.c)
  {
    hide Encodes, Whole, Off, AddSub;
    b := p.f.body;
    nnode := AddSubnode(fdt, target, name, p);
    FindHasSub(Enter(p), name);
    if nnode == -EXISTS {
      var v := fdt.Read();
      nnode := SubnodeOffset(v, target, name, p);
    } else if nnode >= 0 {
      AddedFound(Enter(p), name);
      b := AddSub(p.f.body, name);
      HoldingIs(p, b);
    }
  }

  lemma MergedChild(p: Pos, name: Str, k: Forest)
    requires p.f.SubF? && HasSub(p.f.body, name)
    ensures FindSub(Enter(p), Named(name)).Some?
    ensures var q := FindSub(Enter(p), Named(name)).value;
            && q.f.body == SubBody(p.f.body, name)
            && Whole(Holding(q, k)) == Whole(Holding(p, PutSub(p.f.body, name, k)))
  {
    FindHasSub(Enter(p), name);
    PutSubAt(Enter(p), name, k);
  }

  /** One turn of the subnode loop of overlay_apply_node, for the overlay subnode at s. */
  method ApplySubnode(fdt: Blob, target: int, fdto: Fdt, subnode: int, ghost p: Pos, ghost s: Pos)
    returns (ret: int, ghost b: Forest)
    requires Stands(fdt, p, target) && p.f.SubF?
    requires At(fdto, s, subnode) && s.f.SubF?
    modifies fdt, fdt.mem
    ensures Stands(fdt, Holding(p, b), target)
    ensures fdt.Reserve() == old(fdt.Reserve()) && fdt.totalsize == old(fdt.totalsize)
    ensures ret == 0 || ret == -NOSPACE
    ensures ret == 0 ==> b == MergeChild(p.f.body, s.f)
    decreases FSize(s.f), 0
  {
    hide Encodes, Whole, Off, Apply, PutSub, SubBody, WithSub;
    var name := GetName(fdto, subnode, s);
    NameHasNoNul(fdto, s);
    var nnode;
    nnode, b := EnsureSubnode(fdt, target, name.value, p);
    if nnode < 0 {
      return nnode, b;
    }
    ghost var h := Holding(p, b);
    FindHasSub(Enter(h), name.value);
    ghost var q := FindSub(Enter(h), Named(name.value)).value;
    ghost var k;
    ret, k := ApplyNode(fdt, nnode, fdto, subnode, q, s);
    MergedChild(h, name.value, k);
    b := PutSub(b, name.value, k);
  }

  /** overlay_apply_node: on success the node at p holds the merge of the two nodes' contents. */
  method ApplyNode(fdt: Blob, target: int, fdto: Fdt, node: int, ghost p: Pos, ghost o: Pos)
    returns (ret: int, ghost b: Forest)
    requires Stands(fdt, p, target) && p.f.SubF?
    requires At(fdto, o, node) && o.f.SubF?
    modifies fdt, fdt.mem
    ensures Stands(fdt, Holding(p, b), target)
    ensures fdt.Reserve() == old(fdt.Reserve()) && fdt.totalsize == old(fdt.totalsize)
    ensures ret == 0 || ret == -NOSPACE
    ensures ret == 0 ==> b == Apply(p.f.body, o.f.body)
    decreases FSize(o.f.body), 1
  {
    hide Encodes, Whole, Off, ApplyProps, ApplySubs, MergeChild, FindSub, Remaining, FSize;
    ret, b := ApplyNodeProps(fdt, target, fdto, node, p, o);
    if ret != 0 {
      return;
    }
    var subnode;
    ghost var s;
    subnode, s := FirstSubOf(fdto, node, o);
    while subnode >= 0
      invariant AtSub(fdto, s, subnode) && (s.Some? ==> s.value.f.SubF? && FSize(s.value.f) <= FSize(o.f.body))
      invariant Stands(fdt, Holding(p, b), target)
      invariant fdt.Reserve() == old(fdt.Reserve()) && fdt.totalsize == old(fdt.totalsize)
      invariant Apply(p.f.body, o.f.body) == RestSubs(b, s)
      decreases if s.Some? then Remaining(s.value) + 1 else 0
    {
      ret, b := ApplySubnode(fdt, target, fdto, subnode, Holding(p, b), s.value);
      if ret != 0 {
        return;
      }
      subnode, s := NextSubOf(fdto, subnode, s.value);
    }
    ret := 0;
  }
}
