/** The walks and look-ups of libs/libfdt/fdt.c and libs/libfdt/fdt_ro.c on an encoded tree. */
module FdtRead {
  import opened Bytes
  import opened Tree
  import opened Encoding
  import opened Positions
  import opened Tags

  method CheckNodeOffset(v: Fdt, offset: int, ghost p: Pos) returns (r: int)
    requires At(v, p, offset)
    ensures r == if p.f.SubF? then Off(Enter(p).c) else -BADOFFSET
  {
    hide Encodes, Whole, Off;
    OffAligned(p.c);
    if offset < 0 || !Aligned(offset) {
      return -BADOFFSET;
    }
    var tag, next := TagAtOffset(v, offset, p);
    r := if tag != BEGIN_NODE then -BADOFFSET else next;
  }

  method CheckPropOffset(v: Fdt, offset: int, ghost p: Pos) returns (r: int)
    requires At(v, p, offset)
    ensures r == if p.f.PropF? then Off(Next(p).c) else -BADOFFSET
  {
    hide Encodes, Whole, Off;
    OffAligned(p.c);
    if offset < 0 || !Aligned(offset) {
      return -BADOFFSET;
    }
    var tag, next := TagAtOffset(v, offset, p);
    r := if tag != PROP then -BADOFFSET else next;
  }

  /** fdt_next_node: track is false when the caller passes no depth pointer. */
  method NextNode(v: Fdt, start: int, depth: int, track: bool, ghost p: Pos)
    returns (r: int, d: int, ghost s: Scan)
    requires if start >= 0 then At(v, p, start) else p.c.Top? && At(v, p, 0)
    ensures start >= 0 && !p.f.SubF? ==> r == -BADOFFSET && d == depth
    ensures start < 0 || p.f.SubF? ==>
              && s == ScanFrom(if start >= 0 then Enter(p) else p, depth, track)
              && match s
                 case Found(q, e) => At(v, q, r) && d == e && q.f.SubF?
                 case Left(q) => At(v, q, r) && d == -1
                 case Exhausted => r == -NOTFOUND
  {
    hide Encodes, Whole, Off;
    var nextoffset := 0;
    r, d, s := start, depth, Exhausted;
    ghost var q := p;
    if start >= 0 {
      nextoffset := CheckNodeOffset(v, start, p);
      if nextoffset < 0 {
        return nextoffset, d, s;
      }
      q := Enter(p);
    }
    s := ScanFrom(q, depth, track);
    while true
      invariant At(v, q, nextoffset)
      invariant s == ScanFrom(q, d, track)
      decreases Remaining(q)
    {
      r := nextoffset;
      var tag;
      tag, nextoffset := TagAtOffset(v, r, q);
      ghost var t := TagAt(q);
      if tag == BEGIN_NODE {
        assert t.Begin?;
        d := d + 1;
        return;
      } else if tag == END {
        assert t.End?;
        return -NOTFOUND, d, s;
      }
      q := Next(q);
      if tag == END_NODE {
        assert t.EndNode?;
        d := d - 1;
        if track && d < 0 {
          return nextoffset, -1, s;
        }
      }
    }
  }

  /** fdt_get_name's string: the bytes up to the NUL. */
  method GetName(v: Fdt, nodeoffset: int, ghost p: Pos) returns (r: Option<Str>)
    requires At(v, p, nodeoffset)
    ensures r == if p.f.SubF? then Some(p.f.name) else None
  {
    hide Encodes, Whole, Off;
    var err := CheckNodeOffset(v, nodeoffset, p);
    if err < 0 {
      return None;
    }
    NameHere(v, p);
    var e := SkipName(v, nodeoffset + 4);
    r := Some(v.struct[nodeoffset + 4..e]);
  }

  lemma NameHere(v: Fdt, p: Pos)
    requires Encodes(v, Whole(p)) && TagAt(p).Begin?
    ensures Off(p.c) + 4 <= |v.struct|
    ensures v.struct[Off(p.c) + 4..NulFrom(v.struct, Off(p.c) + 4)] == TagAt(p).name
  {
    hide *;
    RepsAt(v, p);
    NameBytes(v.strs, v.struct, Off(p.c), TagAt(p));
  }

  lemma NameBytes(strs: Str, b: Str, o: nat, t: Tok)
    requires t.Begin? && o + TokSize(t) <= |b|
    requires Reps(strs, b[o..o + TokSize(t)], t)
    ensures b[o + 4..NulFrom(b, o + 4)] == t.name
  {
    var n := t.name;
    SliceSlice(b, o, o + TokSize(t), 4, 4 + |n|);
    assert b[o + 4 + |n|] == b[o..o + TokSize(t)][4 + |n|];
    NulIsEnd(b, o + 4, n);
  }

  /** fdt_nodename_eq_. */
  method NodeNameMatches(v: Fdt, offset: int, s: Str, ghost p: Pos) returns (r: bool)
    requires At(v, p, offset) && p.f.SubF?
    ensures r == NodeNameEq(p.f.name, s)
  {
    hide Encodes, Whole, Off;
    var n := GetName(v, offset, p);
    if |n.value| < |s| || n.value[..|s|] != s {
      return false;
    }
    r := |n.value| == |s| || ('@' as int !in s && n.value[|s|] == '@' as int);
  }

  /** The result a search reports: an offset, or not found. */
  function OffOr(r: Option<Pos>): int {
    match r
    case Some(q) => Off(q.c)
    case None => -NOTFOUND
  }

  method FirstSubnode(v: Fdt, offset: int, ghost p: Pos) returns (r: int)
    requires At(v, p, offset)
    ensures r == if p.f.SubF? then OffOr(FindSub(Enter(p), Any)) else -NOTFOUND
  {
    hide Encodes, Whole, Off;
    ghost var s;
    var d;
    r, d, s := NextNode(v, offset, 0, true, p);
    if p.f.SubF? {
      SearchStart(p, Any);
    }
    if r < 0 || d != 1 {
      r := -NOTFOUND;
    }
  }

  method NextSubnode(v: Fdt, start: int, ghost p: Pos) returns (r: int)
    requires At(v, p, start) && p.f.SubF? && Depth(p.c) > 0
    ensures r == OffOr(FindSub(After(p), Any))
  {
    hide Encodes, Whole, Off;
    ghost var goal := FindSub(After(p), Any);
    ghost var q, s;
    var depth := 1;
    SearchAfter(p, Any);
    r, depth, s := NextNode(v, start, depth, true, p);
    if r < 0 || depth < 1 {
      return -NOTFOUND;
    }
    q := s.p;
    while depth > 1
      invariant At(v, q, r) && Searching(q, depth, Any, goal)
      decreases Remaining(q)
    {
      SearchOn(q, depth, Any, goal);
      r, depth, s := NextNode(v, r, depth, true, q);
      if r < 0 || depth < 1 {
        return -NOTFOUND;
      }
      q := s.p;
    }
  }

  method SubnodeOffset(v: Fdt, start: int, name: Str, ghost p: Pos) returns (r: int)
    requires At(v, p, start)
    ensures r == if p.f.SubF? then OffOr(FindSub(Enter(p), Named(name))) else -BADOFFSET
  {
    hide Encodes, Whole, Off;
    ghost var key, s := Named(name), Exhausted;
    var depth := 0;
    r, depth, s := NextNode(v, start, depth, true, p);
    ghost var goal := None;
    if p.f.SubF? {
      goal := FindSub(Enter(p), key);
      SearchStart(p, key);
    }
    if r < 0 {
      return;
    }
    while r >= 0 && depth >= 0
      invariant s.Found? ==> At(v, s.p, r) && depth == s.depth && Searching(s.p, depth, key, goal)
      invariant s.Left? ==> depth < 0 && goal == None
      invariant !s.Exhausted?
      decreases if s.Found? then Remaining(s.p) + 1 else 0
    {
      if depth == 1 {
        var eq := NodeNameMatches(v, r, name, s.p);
        if eq {
          return;
        }
      }
      SearchOn(s.p, depth, key, goal);
      r, depth, s := NextNode(v, r, depth, true, s.p);
    }
    if depth < 0 {
      r := -NOTFOUND;
    }
  }

  /** fdt_node_end_offset_: the offset after the node's end tag. */
  method NodeEndOffset(v: Fdt, start: int, ghost p: Pos) returns (r: int)
    requires At(v, p, start)
    ensures r == if p.f.SubF? then Off(After(p).c) else -BADOFFSET
  {
    hide Encodes, Whole, Off;
    ghost var s := Exhausted;
    var depth := 0;
    r, depth, s := NextNode(v, start, depth, true, p);
    ghost var goal := Pos(Top, Nil);
    if p.f.SubF? {
      goal := After(p);
      assert Leave(Enter(p).c, Enter(p).f) == After(p);
      ScanOut(Enter(p), 0);
    }
    if r < 0 {
      return;
    }
    while r >= 0 && depth >= 0
      invariant r >= 0 && LeadsTo(s, goal)
      invariant s.Found? ==> At(v, s.p, r) && s.p.f.SubF? && depth == s.depth
      invariant s.Left? ==> At(v, s.p, r) && depth < 0
      decreases if s.Found? then Remaining(s.p) + 1 else 0
    {
      EnterOut(s.p, depth);
      r, depth, s := NextNode(v, r, depth, true, s.p);
    }
  }

  // ----- Properties -----

  /** fdt_get_string on a finished tree: the NUL-terminated string at stroffset of the strings block. */
  method GetString(v: Fdt, stroffset: int) returns (r: Option<Str>)
    ensures r.Some? ==> stroffset >= 0 && IsStringAt(v.strs, stroffset, r.value)
    ensures r.None? ==> stroffset < 0 || forall s :: !IsStringAt(v.strs, stroffset, s)
  {
    if stroffset < 0 || stroffset >= |v.strs| {
      return None;
    }
    var e := stroffset;
    while e < |v.strs| && v.strs[e] != 0
      invariant stroffset <= e <= |v.strs|
      invariant 0 !in v.strs[stroffset..e]
    {
      e := e + 1;
    }
    if e == |v.strs| {
      forall s
        ensures !IsStringAt(v.strs, stroffset, s)
      {
        if stroffset + |s| < |v.strs| {
          assert v.strs[stroffset + |s|] == v.strs[stroffset..e][|s|];
        }
      }
      return None;
    }
    r := Some(v.strs[stroffset..e]);
  }

  lemma PropHere(v: Fdt, p: Pos)
    requires Encodes(v, Whole(p)) && p.f.PropF?
    ensures Off(p.c) + TokSize(Prop(p.f.pname, p.f.data)) <= |v.struct|
    ensures Get32(v.struct, Off(p.c)) == PROP && Get32(v.struct, Off(p.c) + 4) == |p.f.data| < INT_MAX
    ensures IsStringAt(v.strs, Get32(v.struct, Off(p.c) + 8), p.f.pname)
    ensures v.struct[Off(p.c) + 12..Off(p.c) + 12 + |p.f.data|] == p.f.data
  {
    hide Encodes, Whole, Off;
    RepsAt(v, p);
    PropBytes(v.strs, v.struct, Off(p.c), p.f.pname, p.f.data);
  }

  lemma PropBytes(strs: Str, b: Str, o: nat, n: Str, d: Str)
    requires o + TokSize(Prop(n, d)) <= |b|
    requires Reps(strs, b[o..o + TokSize(Prop(n, d))], Prop(n, d))
    ensures Get32(b, o) == PROP && Get32(b, o + 4) == |d| < INT_MAX
    ensures IsStringAt(strs, Get32(b, o + 8), n)
    ensures b[o + 12..o + 12 + |d|] == d
  {
    var e := o + TokSize(Prop(n, d));
    Get32Slice(b, o, e, 0);
    Get32Slice(b, o, e, 4);
    Get32Slice(b, o, e, 8);
    SliceSlice(b, o, e, 12, 12 + |d|);
  }

  method StringEq(v: Fdt, stroffset: int, s: Str, ghost n: Str) returns (r: bool)
    requires stroffset >= 0 && IsStringAt(v.strs, stroffset, n)
    ensures r == (n == s)
  {
    var p := GetString(v, stroffset);
    StringUnique(v.strs, stroffset, p.value, n);
    r := p.value == s;
  }

  /** nextprop_. */
  method NextProp(v: Fdt, start: int, ghost p: Pos) returns (r: int)
    requires At(v, p, start) && Depth(p.c) > 0
    ensures r == OffOr(FirstProp(p))
  {
    hide Encodes, Whole, Off;
    var offset := start;
    ghost var q := p;
    while true
      invariant At(v, q, offset) && Depth(q.c) > 0
      invariant FirstProp(q) == FirstProp(p)
      decreases Remaining(q)
    {
      var tag, next := TagAtOffset(v, offset, q);
      if tag == PROP {
        return offset;
      } else if tag != NOP {
        return -NOTFOUND;
      }
      offset := next;
      q := Next(q);
    }
  }

  method FirstPropertyOffset(v: Fdt, nodeoffset: int, ghost p: Pos) returns (r: int)
    requires At(v, p, nodeoffset)
    ensures r == if p.f.SubF? then OffOr(FirstProp(Enter(p))) else -BADOFFSET
  {
    hide Encodes, Whole, Off;
    var offset := CheckNodeOffset(v, nodeoffset, p);
    if offset < 0 {
      return offset;
    }
    r := NextProp(v, offset, Enter(p));
  }

  method NextPropertyOffset(v: Fdt, propoffset: int, ghost p: Pos) returns (r: int)
    requires At(v, p, propoffset) && Depth(p.c) > 0
    ensures r == if p.f.PropF? then OffOr(FirstProp(Next(p))) else -BADOFFSET
  {
    hide Encodes, Whole, Off;
    var offset := CheckPropOffset(v, propoffset, p);
    if offset < 0 {
      return offset;
    }
    r := NextProp(v, offset, Next(p));
  }

  /** fdt_get_property_namelen_: the offset of the property, or the error. */
  method GetPropertyOffset(v: Fdt, nodeoffset: int, name: Str, ghost p: Pos) returns (r: int)
    requires At(v, p, nodeoffset)
    ensures r == if p.f.SubF? then OffOr(FindProp(Enter(p), name)) else -BADOFFSET
  {
    hide Encodes, Whole, Off, FindProp, FirstProp, FSize, Remaining;
    r := FirstPropertyOffset(v, nodeoffset, p);
    ghost var q := if p.f.SubF? then FirstProp(Enter(p)) else None;
    if p.f.SubF? {
      FindFirst(Enter(p), name);
    }
    while r >= 0
      invariant r >= 0 ==> q.Some? && At(v, q.value, r) && q.value.f.PropF? && Depth(q.value.c) > 0 && p.f.SubF?
      invariant r >= 0 ==> FindProp(Enter(p), name) == if q.value.f.pname == name then q
                else FindProp(Next(q.value), name)
      invariant r < 0 ==> r == if p.f.SubF? then OffOr(FindProp(Enter(p), name)) else -BADOFFSET
      decreases if r >= 0 then Remaining(q.value) + 1 else 0
    {
      PropHere(v, q.value);
      var eq := StringEq(v, Get32(v.struct, r + 8), name, q.value.f.pname);
      if eq {
        return;
      }
      FindFirst(Next(q.value), name);
      r := NextPropertyOffset(v, r, q.value);
      q := FirstProp(Next(q.value));
    }
  }

  datatype Value = Value(data: Str) | Missing(err: int)

  /** fdt_getprop: the value of the property, or the error. */
  method GetProp(v: Fdt, nodeoffset: int, name: Str, ghost p: Pos) returns (r: Value)
    requires At(v, p, nodeoffset)
    ensures r == if !p.f.SubF? then Missing(-BADOFFSET) else
                 match FindProp(Enter(p), name)
                 case Some(q) => Value(q.f.data)
                 case None => Missing(-NOTFOUND)
  {
    hide Encodes, Whole, Off;
    var offset := GetPropertyOffset(v, nodeoffset, name, p);
    if offset < 0 {
      return Missing(offset);
    }
    ghost var q := FindProp(Enter(p), name).value;
    PropHere(v, q);
    r := Value(v.struct[offset + 12..offset + 12 + Get32(v.struct, offset + 4)]);
  }

  /** The value of the property of the node at p. */
  function Read(p: Pos, name: Str): Option<Str>
    requires p.f.SubF?
  {
    match FindProp(Enter(p), name)
    case Some(q) => Some(q.f.data)
    case None => None
  }

  method ReadProp(v: Fdt, off: int, name: Str, ghost p: Pos) returns (r: Option<Str>)
    requires At(v, p, off) && p.f.SubF?
    ensures r == Read(p, name)
  {
    var d := GetProp(v, off, name, p);
    match d
    case Value(data) => r := Some(data);
    case Missing(_) => r := None;
  }
}
