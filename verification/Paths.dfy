/** Paths (libs/libfdt/fdt_ro.c): fdt_get_path writes the path of a node, fdt_path_offset finds the node of a path. */
module Paths {
  import opened Bytes
  import opened Tree
  import opened Encoding
  import opened Positions
  import opened Tags
  import opened FdtRead
  import opened Overlay
  import opened Walk

  // ----- The path of a node -----

  /** The names, each with a slash after it. */
  function Full(names: seq<Str>): (s: Str)
    ensures names != [] ==> s != [] && s[|s| - 1] == SLASH
  {
    if names == [] then [] else Full(names[..|names| - 1]) + names[|names| - 1] + [SLASH]
  }

  /** The names of the nodes from the root to the node at p. */
  function NamesTo(p: Pos): (s: seq<Str>)
    requires p.f.SubF?
    ensures |s| == Depth(p.c) + 1
  {
    Chain(p.c) + [p.f.name]
  }

  /** The path as fdt_get_path writes it: without the last slash, unless it is the root's. */
  function PathStr(names: seq<Str>): Str {
    var s := Full(names);
    if |s| > 1 then s[..|s| - 1] else s
  }

  predicate SlashFree(f: Forest) {
    match f
    case Nil => true
    case SubF(n, k, r) => SLASH !in n && SlashFree(k) && SlashFree(r)
    case _ => SlashFree(f.rest)
  }

  lemma {:induction false} SlashFreeAt(c: Ctx, f: Forest)
    requires SlashFree(Plug(c, f))
    ensures SlashFree(f) && forall n | n in Chain(c) :: SLASH !in n
    decreases c
  {
    if !c.Top? {
      SlashFreeAt(c.up, Fill(c.frame, f));
    }
  }

  lemma {:induction false} FullGrows(names: seq<Str>, k: nat)
    requires k <= |names|
    ensures |Full(names[..k])| <= |Full(names)|
  {
    if k < |names| {
      var last := names[..|names| - 1];
      FullGrows(last, k);
      assert last[..k] == names[..k];
    } else {
      assert names[..k] == names;
    }
  }

  /** The names st whose path is in the buffer, on the way to a node below the open nodes chain. */
  ghost predicate Held(buf: seq<byte>, pos: int, st: seq<Str>, chain: seq<Str>) {
    && pos == |Full(st)| <= |buf| && buf[..pos] == Full(st)
    && (forall n | n in st :: SLASH !in n)
    && var m := if |st| < |chain| then |st| else |chain|;
       st[..m] == chain[..m] && (|st| < |chain| ==> |Full(chain[..|st| + 1])| > |buf|)
  }

  /** Going on to a node whose open nodes are the first ones of the chain to the last. */
  lemma HeldNext(buf: seq<byte>, pos: int, st: seq<Str>, chain: seq<Str>, d: nat)
    requires Held(buf, pos, st, chain) && d <= |chain| && |st| <= |chain|
    ensures Held(buf, pos, st, chain[..d])
  {
    var next := chain[..d];
    if |st| < d {
      assert next[..|st| + 1] == chain[..|st| + 1];
      assert next[..|st|] == chain[..|st|];
    } else {
      assert st[..d] == st[..|st|][..d] == chain[..|st|][..d];
      assert next[..d] == next;
    }
  }

  /** The inner loop of fdt_get_path: the last name is taken off again. */
  method PopName(buf: array<byte>, p0: nat, ghost st: seq<Str>) returns (p: nat)
    requires |st| >= 2 && p0 == |Full(st)| <= buf.Length && buf[..p0] == Full(st) && SLASH !in st[|st| - 1]
    ensures p == |Full(st[..|st| - 1])| && buf[..p] == Full(st[..|st| - 1])
  {
    ghost var rest, last := Full(st[..|st| - 1]), st[|st| - 1];
    assert Full(st) == rest + last + [SLASH];
    p := p0 - 1;
    while buf[p - 1] != SLASH
      invariant |rest| <= p <= p0 - 1
      decreases p
    {
      assert buf[..p0][p - 1] == (rest + last + [SLASH])[p - 1];
      p := p - 1;
    }
    assert buf[..p0][p - 1] == (rest + last + [SLASH])[p - 1];
    NoSlash(rest, last);
    assert buf[..p] == buf[..p0][..p];
  }

  lemma NoSlash(rest: Str, last: Str)
    requires SLASH !in last
    ensures forall k :: |rest| <= k < |rest + last| ==> (rest + last + [SLASH])[k] != SLASH
  {
    assert forall k :: |rest| <= k < |rest + last| ==> (rest + last + [SLASH])[k] == last[k - |rest|];
  }

  /** Names taken off until no more than depth are left. */
  method PopTo(buf: array<byte>, p0: nat, pdepth: nat, depth: nat, ghost st: seq<Str>, ghost chain: seq<Str>)
      returns (p: nat, pd: nat)
    requires Held(buf[..], p0, st, chain) && |st| == pdepth && |chain| == depth && (depth > 0 || pdepth == 0)
    ensures pd == (if pdepth > depth then depth else pdepth) && Held(buf[..], p, chain[..pd], chain)
  {
    p, pd := p0, pdepth;
    ghost var s := st;
    assert st[..|st|] == st;
    while pd > depth
      invariant pd == |s| && s == st[..pd] && (pd >= depth || pd == pdepth)
      invariant p == |Full(s)| <= buf.Length && buf[..p] == Full(s)
    {
      assert s[|s| - 1] in st;
      assert s[..|s| - 1] == st[..pd - 1];
      FullGrows(s, |s| - 1);
      p := PopName(buf, p, s);
      s := s[..|s| - 1];
      pd := pd - 1;
    }
    assert s == chain[..pd];
    assert forall n | n in s :: n in st;
    assert buf[..][..p] == buf[..p];
    assert s[..pd] == s;
  }

  /** One name put after those in the buffer, if there is room. */
  method PushName(buf: array<byte>, p0: nat, name: Str, ghost st: seq<Str>) returns (p: nat, ok: bool)
    requires Held(buf[..], p0, st, st) && SLASH !in name
    modifies buf
    ensures ok <==> |Full(st + [name])| <= buf.Length
    ensures if ok then Held(buf[..], p, st + [name], st + [name]) else p == p0 && Held(buf[..], p, st, st + [name])
  {
    assert (st + [name])[..|st|] == st && (st + [name])[..|st| + 1] == st + [name];
    assert Full(st + [name]) == Full(st) + name + [SLASH];
    assert st[..|st|] == st;
    if p0 + |name| + 1 > buf.Length {
      return p0, false;
    }
    forall i | 0 <= i < |name| {
      buf[p0 + i] := name[i];
    }
    buf[p0 + |name|] := SLASH;
    p, ok := p0 + |name| + 1, true;
    assert buf[..p] == old(buf[..])[..p0] + name + [SLASH];
  }

  /** What fdt_get_path does about one node: names are taken off, and the node's is put on if there is room for it. */
  method Visit(buf: array<byte>, p0: nat, pd0: nat, depth: nat, name: Str, ghost st: seq<Str>, ghost chain: seq<Str>)
    returns (p: nat, pd: nat, ghost held: seq<Str>)
    requires Held(buf[..], p0, st, chain) && |st| == pd0 && |chain| == depth && (depth > 0 || pd0 == 0)
             && SLASH !in name
    modifies buf
    ensures Held(buf[..], p, held, chain + [name]) && |held| == pd <= depth + 1
  {
    hide Held, Full;
    p, pd := PopTo(buf, p0, pd0, depth, st, chain);
    held := chain[..pd];
    if pd >= depth {
      assert chain[..pd] == chain;
      var ok;
      p, ok := PushName(buf, p, name, held);
      if ok {
        pd := pd + 1;
        held := chain + [name];
      }
    } else {
      HeldLess(buf[..], p, held, chain, chain + [name]);
    }
  }

  /** fdt_get_path: the path of the node at p, or no space exactly if the path and its NUL do not fit. */
  method GetPath(v: Fdt, nodeoffset: int, buf: array<byte>, ghost p: Pos) returns (r: int)
    requires At(v, p, nodeoffset) && IsRoot(Whole(p)) && SlashFree(Whole(p)) && (p.f.SubF? || Depth(p.c) > 0)
    modifies buf
    ensures r == if buf.Length < 2 then -NOSPACE else if !p.f.SubF? then -BADOFFSET else
                 if |Full(NamesTo(p))| > buf.Length then -NOSPACE else 0
    ensures r == 0 ==> var s := PathStr(NamesTo(p)); |s| < buf.Length && buf[..|s|] == s && buf[|s|] == 0
  {
    hide Encodes, Off, Held, Reaches, Stops, Full, SlashFree, PathStr, Plug, Chain;
    if buf.Length < 2 {
      return -NOSPACE;
    }
    var pdepth: nat, pos: nat, offset, depth := 0, 0, 0, 0;
    ghost var q := Pos(Top, Whole(p));
    ghost var st: seq<Str> := [];
    WalkStart(v, p, nodeoffset, buf[..]);
    while offset >= 0 && offset <= nodeoffset
      invariant 0 <= offset <= nodeoffset ==>
                At(v, q, offset) && q.f.SubF? && depth == Depth(q.c) && Whole(q) == Whole(p)
      invariant 0 <= offset <= nodeoffset ==>
                Held(buf[..], pos, st, Chain(q.c)) && |st| == pdepth && (depth > 0 || pdepth == 0)
      invariant p.f.SubF? ==> 0 <= offset <= nodeoffset && Reaches(q, p)
      invariant !p.f.SubF? ==> offset >= 0
      decreases if 0 <= offset <= nodeoffset then Remaining(q) + 1 else 0
    {
      var name := GetName(v, offset, q);
      SlashFreeAt(q.c, q.f);
      SlashFreeHere(q.f);
      pos, pdepth, st := Visit(buf, pos, pdepth, depth, name.value, st, Chain(q.c));
      if offset == nodeoffset {
        SameOffset(q, p, nodeoffset);
        HeldEnd(buf[..], pos, st, NamesTo(p));
        if pdepth < depth + 1 {
          return -NOSPACE;
        }
        WrittenPath(buf[..], if pos > 1 then pos - 1 else pos, NamesTo(p));
        if pos > 1 {
          pos := pos - 1;
        }
        buf[pos] := 0;
        return 0;
      }
      ghost var s;
      ghost var q0 := q;
      WalkOn(q, p, depth, offset, nodeoffset);
      offset, depth, s := NextNode(v, offset, depth, true, q);
      if s.Found? {
        q := s.p;
        HeldNext(buf[..], pos, st, NamesTo(q0), depth);
      }
    }
    r := -BADOFFSET;
  }

  lemma WalkStart(v: Fdt, p: Pos, off: int, buf: seq<byte>)
    requires At(v, p, off) && IsRoot(Whole(p))
    ensures At(v, Pos(Top, Whole(p)), 0) && Whole(Pos(Top, Whole(p))) == Whole(p) && Whole(p).SubF?
            && Reaches(Pos(Top, Whole(p)), p) && off >= 0
    ensures Held(buf, 0, [], Chain(Top))
  {
    hide Encodes;
    StartReaches(p.c, p.f);
    HeldStart(buf);
  }

  lemma SameOffset(q: Pos, p: Pos, off: int)
    requires Whole(q) == Whole(p) && off == Off(q.c) && off == Off(p.c)
    ensures q == p
  {
    OffUnique(q, p);
  }

  /** One step of the walk, from the node at q, which is not the one looked for. */
  lemma WalkOn(q: Pos, p: Pos, depth: int, off: int, nodeoffset: int)
    requires q.f.SubF? && depth == Depth(q.c) && Whole(q) == Whole(p) && IsRoot(Whole(q)) && off == Off(q.c)
             && nodeoffset == Off(p.c) && off != nodeoffset
    requires p.f.SubF? || Depth(p.c) > 0
    requires p.f.SubF? ==> Reaches(q, p)
    ensures var s := ScanFrom(Enter(q), depth, true);
            && !s.Exhausted?
            && (s.Found? ==> 0 < s.depth == Depth(s.p.c) <= |NamesTo(q)| && Chain(s.p.c) == NamesTo(q)[..s.depth])
            && (p.f.SubF? ==> s.Found? && Reaches(s.p, p) && Off(s.p.c) <= nodeoffset)
            && (!p.f.SubF? && s.Left? ==> Off(s.p.c) > nodeoffset)
  {
    hide Reaches, Plug;
    ScanChain(Enter(q), depth);
    NotYet(q, p, depth);
    StopsIs(Enter(q), ScanFrom(Enter(q), depth, true));
    var s := ScanFrom(Enter(q), depth, true);
    if s.Found? {
      ReachesForward(Enter(q), s.p);
      NotOutside(s.p);
    }
  }

  lemma NotOutside(q: Pos)
    requires IsRoot(Whole(q)) && q.f.SubF? && Off(q.c) > 0
    ensures Depth(q.c) > 0
  {
    if Depth(q.c) == 0 {
      NotRoot(q.c, q.f);
    }
  }

  lemma HeldStart(buf: seq<byte>)
    ensures Held(buf, 0, [], [])
  {
    assert buf[..0] == [];
  }

  lemma SlashFreeHere(f: Forest)
    requires f.SubF? && SlashFree(f)
    ensures SLASH !in f.name
  {
  }

  lemma HeldLess(buf: seq<byte>, pos: int, st: seq<Str>, chain: seq<Str>, more: seq<Str>)
    requires Held(buf, pos, st, chain) && |st| < |chain| && chain <= more
    ensures Held(buf, pos, st, more)
  {
    assert more[..|st|] == chain[..|st|] && more[..|st| + 1] == chain[..|st| + 1];
  }

  lemma HeldEnd(buf: seq<byte>, pos: int, st: seq<Str>, names: seq<Str>)
    requires Held(buf, pos, st, names) && |st| <= |names|
    ensures |st| < |names| ==> |Full(names)| > |buf|
    ensures |st| == |names| ==> st == names && pos == |Full(names)| <= |buf| && buf[..pos] == Full(names)
  {
    if |st| < |names| {
      FullGrows(names, |st| + 1);
    } else {
      assert st[..|st|] == st && names[..|names|] == names;
    }
  }

  lemma WrittenPath(buf: seq<byte>, pos: int, names: seq<Str>)
    requires names != [] && |buf| >= 2 && |Full(names)| <= |buf| && buf[..|Full(names)|] == Full(names)
    requires pos == if |Full(names)| > 1 then |Full(names)| - 1 else |Full(names)|
    ensures 0 <= pos < |buf| && pos == |PathStr(names)| && buf[..pos] == PathStr(names)
  {
    assert buf[..|Full(names)|][..pos] == buf[..pos];
  }

  /** A node ahead is still ahead after the next step, or the walk has gone past every node. */
  lemma NotYet(q: Pos, p: Pos, depth: nat)
    requires q.f.SubF? && depth == Depth(q.c) && Whole(q) == Whole(p) && IsRoot(Whole(q)) && Off(q.c) != Off(p.c)
    requires p.f.SubF? || Depth(p.c) > 0
    ensures var s := ScanFrom(Enter(q), depth, true);
            && (p.f.SubF? && Reaches(q, p) ==> s.Found? && Reaches(s.p, p) && Off(s.p.c) <= Off(p.c))
            && (!p.f.SubF? && s.Left? ==> Off(s.p.c) > Off(p.c))
  {
    var s := ScanFrom(Enter(q), depth, true);
    if p.f.SubF? && Reaches(q, p) {
      ScanNotPast(Enter(q), depth, p);
      ReachesForward(s.p, p);
    }
    if !p.f.SubF? && s.Left? {
      ScanLeaves(Enter(q), depth);
      EndIsLast(s.p, p);
    }
  }

  lemma StopsIs(x: Pos, s: Scan)
    requires Stops(x, s)
    ensures s.Found? ==> s.depth == Depth(s.p.c) <= Depth(x.c) && Chain(s.p.c) == Chain(x.c)[..s.depth]
    ensures !s.Exhausted? && (s.Found? ==> Reaches(x, s.p))
  {
  }

  // ----- The node of a path -----

  /** The node that the names cs, taken one after the other, lead to from the node at p. */
  function PathFrom(p: Pos, cs: seq<Str>): (r: Option<Pos>)
    requires p.f.SubF?
    ensures r.Some? ==> r.value.f.SubF? && Whole(r.value) == Whole(p)
    decreases |cs|
  {
    if cs == [] then Some(p) else
      match FindSub(Enter(p), Named(cs[0]))
      case None => None
      case Some(q) => PathFrom(q, cs[1..])
  }

  /** The node that a path of the tree f names: from the root, or from where an alias says. */
  function PathTo(f: Forest, path: Str): (r: Res<Pos>)
    requires IsRoot(f)
    ensures r.Ok? ==> r.v.f.SubF? && Whole(r.v) == f
  {
    var root := Pos(Top, f);
    if path == [] then Err(-BADPATH) else
    if path[0] == SLASH then FoundOr(PathFrom(root, Comps(path))) else
      var alias := match PathFrom(root, [ALIASES]) case None => None case Some(q) => FindProp(Enter(q),
        path[..Word(path)]);
      match alias
      case None => Err(-BADPATH)
      case Some(a) =>
        if !IsAlias(a.f.data) then Err(-BADPATH) else
          match PathFrom(root, Comps(CStr(a.f.data)))
          case None => Err(-NOTFOUND)
          case Some(q) => FoundOr(PathFrom(q, Comps(path[Word(path)..])))
  }

  function FoundOr(r: Option<Pos>): Res<Pos> {
    match r
    case Some(q) => Ok(q)
    case None => Err(-NOTFOUND)
  }

  /** What fdt_get_alias_namelen asks of the value. */
  predicate IsAlias(d: Str) {
    d != [] && d[|d| - 1] == 0 && d[0] == SLASH
  }

  function OffRes(r: Res<Pos>): int {
    match r
    case Ok(q) => Off(q.c)
    case Err(code) => code
  }

  lemma CompsSkip(s: Str)
    requires s != [] && s[0] == SLASH
    ensures Comps(s) == Comps(s[1..])
  {
  }

  /** What is still to be followed of a path after its first character, or its first name. */
  lemma PathStep(q: Pos, s: Str)
    requires q.f.SubF?
    ensures s == [] ==> PathFrom(q, Comps(s)) == Some(q)
    ensures s != [] && s[0] == SLASH ==> PathFrom(q, Comps(s)) == PathFrom(q, Comps(s[1..]))
    ensures s != [] && s[0] != SLASH ==>
              && 0 < Word(s) <= |s|
              && PathFrom(q, Comps(s)) == match FindSub(Enter(q), Named(s[..Word(s)]))
                                          case None => None
                                          case Some(x) => PathFrom(x, Comps(s[Word(s)..]))
  {
    hide FindSub;
    if s != [] && s[0] != SLASH {
      NextComp(s);
    }
  }

  /** The loop of fdt_path_offset_namelen, from the node at p. */
  method FollowPath(v: Fdt, start: int, path: Str, ghost p: Pos) returns (r: int)
    requires At(v, p, start) && p.f.SubF?
    ensures r == OffRes(FoundOr(PathFrom(p, Comps(path))))
  {
    hide Encodes, Off, Plug, Comps, PathFrom, FindSub, Word;
    var offset, i := start, 0;
    ghost var q := p;
    assert path[0..] == path;
    while i < |path|
      invariant 0 <= i <= |path| && At(v, q, offset) && q.f.SubF?
      invariant PathFrom(p, Comps(path)) == PathFrom(q, Comps(path[i..]))
    {
      PathStep(q, path[i..]);
      if path[i] == SLASH {
        assert path[i..][1..] == path[i + 1..];
        i := i + 1;
        if i == |path| {
          PathStep(q, path[i..]);
          return offset;
        }
      } else {
        var n := Word(path[i..]);
        var name := path[i..][..n];
        assert path[i..][n..] == path[i + n..];
        ghost var next := FindSub(Enter(q), Named(name));
        offset := SubnodeOffset(v, offset, name, q);
        if offset < 0 {
          return offset;
        }
        q := next.value;
        i := i + n;
      }
    }
    PathStep(q, path[i..]);
    r := offset;
  }

  lemma NextComp(s: Str)
    requires s != [] && s[0] != SLASH
    ensures Word(s) > 0 && Comps(s) != [] && Comps(s)[0] == s[..Word(s)] && Comps(s)[1..] == Comps(s[Word(s)..])
  {
  }

  /** fdt_path_offset. */
  method PathOffset(v: Fdt, path: Str, ghost f: Forest) returns (r: int)
    requires Encodes(v, f) && IsRoot(f)
    ensures r == OffRes(PathTo(f, path))
  {
    hide Encodes, Off, Comps, CStr, PathFrom;
    ghost var root := Pos(Top, f);
    RootAt(v, f);
    if path == [] {
      return -BADPATH;
    }
    if path[0] == SLASH {
      r := FollowPath(v, 0, path, root);
      return;
    }
    var n := Word(path);
    AliasesPath();
    var aliases := FollowPath(v, 0, [SLASH] + ALIASES, root);
    if aliases < 0 {
      return -BADPATH;
    }
    ghost var q := PathFrom(root, [ALIASES]).value;
    var alias := GetProp(v, aliases, path[..n], q);
    if alias.Missing? || !IsAlias(alias.data) {
      return -BADPATH;
    }
    var s := ReadCStr(alias.data);
    AliasStarts(alias.data);
    r := FollowPath(v, 0, s, root);
    if r < 0 {
      return;
    }
    ghost var t := PathFrom(root, Comps(s)).value;
    r := FollowPath(v, r, path[n..], t);
  }

  /** A C string read up to its NUL. */
  method ReadCStr(d: Str) returns (s: Str)
    ensures s == CStr(d)
  {
    var i := 0;
    assert d[..0] + CStr(d[0..]) == CStr(d) by {
      assert d[0..] == d;
    }
    while i < |d| && d[i] != 0
      invariant 0 <= i <= |d| && d[..i] + CStr(d[i..]) == CStr(d)
    {
      assert d[..i + 1] == d[..i] + [d[i]] && d[i..][1..] == d[i + 1..];
      i := i + 1;
    }
    assert CStr(d[i..]) == [];
    s := d[..i];
  }

  lemma RootAt(v: Fdt, f: Forest)
    requires Encodes(v, f) && IsRoot(f)
    ensures At(v, Pos(Top, f), 0) && f.SubF?
  {
  }

  lemma {:induction false} WordWhole(n: Str)
    requires SLASH !in n
    ensures Word(n) == |n|
  {
    if n != [] {
      WordWhole(n[1..]);
    }
  }

  lemma CompsOne(n: Str)
    requires SLASH !in n && n != []
    ensures Comps(n) == [n]
  {
    WordWhole(n);
    assert n[..|n|] == n && n[|n|..] == [];
  }

  lemma AliasesPath()
    ensures Comps([SLASH] + ALIASES) == [ALIASES]
  {
    var s := [SLASH] + ALIASES;
    CompsSkip(s);
    assert s[1..] == ALIASES;
    assert |ALIASES| == 7 && forall i :: 0 <= i < 7 ==> ALIASES[i] != SLASH;
    CompsOne(ALIASES);
  }

  lemma AliasStarts(d: Str)
    requires IsAlias(d)
    ensures CStr(d) != []
  {
  }

  // ----- The one inverts the other -----

  /** The node that the hole of c, filled with f, is in. */
  function Parent(c: Ctx, f: Forest): (q: Pos)
    requires Depth(c) > 0
    ensures q.f.SubF? && Whole(q) == Plug(c, f) && Depth(q.c) == Depth(c) - 1 && Chain(c) == NamesTo(q)
    decreases c
  {
    match c.frame
    case InBody(n, r) => Pos(c.up, SubF(n, f, r))
    case _ => Parent(c.up, Fill(c.frame, f))
  }

  /** No sibling in front of the hole of c is called by the name s. */
  predicate Clear(c: Ctx, s: Str)
    decreases c
  {
    match c
    case Top => true
    case In(AfterSub(m, _), up) => !NodeNameEq(m, s) && Clear(up, s)
    case In(InBody(_, _), _) => true
    case In(_, up) => Clear(up, s)
  }

  /** On the way to p no name stands for an earlier sibling too. */
  predicate Unambiguous(p: Pos)
    requires p.f.SubF?
    decreases Depth(p.c)
  {
    Depth(p.c) == 0 || (Clear(p.c, p.f.name) && Unambiguous(Parent(p.c, p.f)))
  }

  /** A search among the subnodes of a node looks at those in front of the hole first. */
  lemma {:induction false} SearchFrom(c: Ctx, f: Forest, s: Str)
    requires Depth(c) > 0
    ensures var r := FindSub(Enter(Parent(c, f)), Named(s));
            if Clear(c, s) then r == FindSub(Pos(c, f), Named(s)) else r.Some? && Off(r.value.c) < Off(c)
    decreases c
  {
    hide NodeNameEq, Chain, Plug, Off, FindSub, Parent;
    if c.frame.InBody? {
      InFront(c, f);
    } else {
      SearchFrom(c.up, Fill(c.frame, f), s);
      SearchStep(c, f, s);
    }
  }

  lemma InFront(c: Ctx, f: Forest)
    requires Depth(c) > 0 && c.frame.InBody?
    ensures Pos(c, f) == Enter(Parent(c, f))
  {
  }

  lemma SearchStep(c: Ctx, f: Forest, s: Str)
    requires Depth(c) > 0 && !c.frame.InBody?
    ensures Depth(c.up) == Depth(c) && Parent(c, f) == Parent(c.up, Fill(c.frame, f)) && Off(c.up) < Off(c)
    ensures FindSub(Pos(c.up, Fill(c.frame, f)), Named(s)) ==
            if c.frame.AfterSub? && NodeNameEq(c.frame.name, s) then Some(Pos(c.up, Fill(c.frame, f)))
              else FindSub(Pos(c, f), Named(s))
  {
    hide FindSub;
    assert FrameSize(c.frame) > 0;
    FindStep(c, f, s);
  }

  lemma FindStep(c: Ctx, f: Forest, s: Str)
    requires !c.Top? && !c.frame.InBody?
    ensures FindSub(Pos(c.up, Fill(c.frame, f)), Named(s)) ==
            if c.frame.AfterSub? && NodeNameEq(c.frame.name, s) then Some(Pos(c.up, Fill(c.frame, f)))
              else FindSub(Pos(c, f), Named(s))
  {
    hide NodeNameEq, Chain, Plug, Off, Depth, Remaining, FSize;
  }

  /** What a search finds is a child of the node it searches. */
  lemma {:induction false} FoundIsChild(x: Pos, p: Pos, k: Key)
    requires Depth(p.c) > 0 && Parent(p.c, p.f) == x && FindSub(p, k).Some?
    ensures var q := FindSub(p, k).value; Depth(q.c) > 0 && Parent(q.c, q.f) == x
    decreases p.f
  {
    match p.f
    case SubF(n, _, _) => if !Matches(k, n) { FoundIsChild(x, After(p), k); }
    case NopF(_) => FoundIsChild(x, Next(p), k);
    case PropF(_, _, _) => FoundIsChild(x, Next(p), k);
  }

  lemma {:induction false} PathFromCat(p: Pos, cs: seq<Str>, n: Str)
    requires p.f.SubF?
    ensures PathFrom(p, cs + [n]) == match PathFrom(p, cs) case None => None case Some(x) => FindSub(Enter(x), Named(n))
    decreases |cs|
  {
    if cs == [] {
      assert cs + [n] == [n] && [n][1..] == [];
    } else {
      assert (cs + [n])[0] == cs[0] && (cs + [n])[1..] == cs[1..] + [n];
      match FindSub(Enter(p), Named(cs[0])) {
        case None =>
        case Some(q) => PathFromCat(q, cs[1..], n);
      }
    }
  }

  /** The names on the way to p lead to p exactly if none of them is ambiguous. */
  lemma {:induction false} NamesLead(p: Pos)
    requires p.f.SubF? && IsRoot(Whole(p))
    ensures PathFrom(Pos(Top, Whole(p)), NamesTo(p)[1..]) == Some(p) <==> Unambiguous(p)
    decreases Depth(p.c)
  {
    hide Chain, Plug;
    var root := Pos(Top, Whole(p));
    RootIs(p);
    if Depth(p.c) == 0 {
      assert NamesTo(p)[1..] == [];
    } else {
      var x, n := Parent(p.c, p.f), p.f.name;
      NamesLead(x);
      assert NamesTo(p)[1..] == NamesTo(x)[1..] + [n];
      PathFromCat(root, NamesTo(x)[1..], n);
      SearchFrom(p.c, p.f, n);
      FoundHere(p);
      match PathFrom(root, NamesTo(x)[1..]) {
        case None =>
        case Some(y) =>
          if FindSub(Enter(y), Named(n)) == Some(p) {
            FoundIsChild(y, Enter(y), Named(n));
          }
      }
    }
  }

  lemma FoundHere(p: Pos)
    requires p.f.SubF?
    ensures FindSub(p, Named(p.f.name)) == Some(p)
  {
    assert NodeNameEq(p.f.name, p.f.name);
  }

  lemma RootIs(p: Pos)
    requires p.f.SubF? && IsRoot(Whole(p))
    ensures Depth(p.c) == 0 ==> p == Pos(Top, Whole(p))
    ensures Whole(Pos(Top, Whole(p))) == Whole(p)
  {
    if Depth(p.c) == 0 && !p.c.Top? {
      NotRoot(p.c, p.f);
    }
  }

  // ----- Paths as text -----

  /** A slash in front of each name. */
  function Join(names: seq<Str>): Str {
    if names == [] then [] else [SLASH] + names[0] + Join(names[1..])
  }

  predicate Proper(n: Str) {
    n != [] && SLASH !in n
  }

  lemma {:induction false} JoinLast(names: seq<Str>, n: Str)
    ensures Join(names + [n]) == Join(names) + ([SLASH] + n)
  {
    if names == [] {
      assert [n][1..] == [];
    } else {
      assert (names + [n])[0] == names[0] && (names + [n])[1..] == names[1..] + [n];
      JoinLast(names[1..], n);
    }
  }

  lemma FullStep(names: seq<Str>)
    requires names != []
    ensures Full(names) == Full(names[..|names| - 1]) + names[|names| - 1] + [SLASH]
  {
  }

  lemma FullOne(names: seq<Str>)
    requires |names| == 1 && names[0] == []
    ensures Full(names) == Join(names[1..]) + [SLASH]
  {
    assert names[..0] == [] && names[1..] == [];
  }

  lemma {:induction false} FullIsJoin(names: seq<Str>)
    requires names != [] && names[0] == []
    ensures Full(names) == Join(names[1..]) + [SLASH]
    decreases |names|
  {
    hide Full, Join;
    var k := |names| - 1;
    if k == 0 {
      FullOne(names);
    } else {
      var pre := names[..k];
      FullIsJoin(pre);
      FullStep(names);
      assert pre[1..] + [names[k]] == names[1..];
      JoinLast(pre[1..], names[k]);
      assert Join(pre[1..]) + [SLASH] + names[k] == Join(pre[1..]) + ([SLASH] + names[k]);
    }
  }

  lemma {:induction false} WordStops(n: Str, rest: Str)
    requires SLASH !in n && (rest == [] || rest[0] == SLASH)
    ensures Word(n + rest) == |n|
  {
    if n == [] {
      assert n + rest == rest;
    } else {
      assert (n + rest)[1..] == n[1..] + rest;
      WordStops(n[1..], rest);
    }
  }

  lemma {:induction false} CompsJoin(names: seq<Str>)
    requires forall n | n in names :: Proper(n)
    ensures Comps(Join(names)) == names
  {
    if names != [] {
      var n, rest := names[0], Join(names[1..]);
      assert Proper(n) && forall m | m in names[1..] :: m in names;
      CompsJoin(names[1..]);
      assert Join(names) == [SLASH] + (n + rest);
      OneComp(n, rest);
    }
  }

  lemma PathStrComps(names: seq<Str>)
    requires names != [] && names[0] == [] && forall n | n in names[1..] :: Proper(n)
    ensures PathStr(names) != [] && PathStr(names)[0] == SLASH && Comps(PathStr(names)) == names[1..]
  {
    FullIsJoin(names);
    if |names| == 1 {
      assert Full(names) == [SLASH];
      CompsSkip([SLASH]);
    } else {
      assert PathStr(names) == Join(names[1..]);
      CompsJoin(names[1..]);
    }
  }

  /**
   * fdt_path_offset takes the path that fdt_get_path writes back to the node, exactly if no name on the way also
   * stands for an earlier sibling.
   */
  lemma PathInverts(p: Pos)
    requires p.f.SubF? && IsRoot(Whole(p)) && NamesTo(p)[0] == [] && forall n | n in NamesTo(p)[1..] :: Proper(n)
    ensures PathTo(Whole(p), PathStr(NamesTo(p))) == Ok(p) <==> Unambiguous(p)
  {
    PathStrComps(NamesTo(p));
    NamesLead(p);
  }

  lemma OneComp(n: Str, more: Str)
    requires Proper(n) && (more == [] || more[0] == SLASH)
    ensures Comps([SLASH] + (n + more)) == [n] + Comps(more)
  {
    CompsSkip([SLASH] + (n + more));
    assert ([SLASH] + (n + more))[1..] == n + more;
    WordStops(n, more);
    NextComp(n + more);
    assert (n + more)[..|n|] == n && (n + more)[|n|..] == more;
  }

  lemma {:induction false} WordFree(s: Str)
    ensures SLASH !in s[..Word(s)]
    ensures Word(s) < |s| ==> s[Word(s)] == SLASH
  {
    if s != [] && s[0] != SLASH {
      WordFree(s[1..]);
      assert s[..Word(s)] == [s[0]] + s[1..][..Word(s[1..])];
    }
  }

  lemma {:induction false} CompsCat(a: Str, rest: Str)
    requires rest != [] && rest[0] == SLASH
    ensures Comps(a + rest) == Comps(a) + Comps(rest)
    decreases |a|
  {
    hide Comps, Word;
    if a == [] {
      NoComps();
      assert a + rest == rest;
    } else if a[0] == SLASH {
      CompsSkip(a);
      CompsSkip(a + rest);
      assert (a + rest)[1..] == a[1..] + rest;
      CompsCat(a[1..], rest);
    } else {
      var n := Word(a);
      NextComp(a);
      NextComp(a + rest);
      WordCat(a, rest);
      assert (a + rest)[..n] == a[..n] && (a + rest)[n..] == a[n..] + rest;
      CompsCat(a[n..], rest);
      HeadTail(Comps(a), Comps(a + rest), Comps(rest));
    }
  }

  lemma NoComps()
    ensures Comps([]) == []
  {
  }

  lemma HeadTail(a: seq<Str>, c: seq<Str>, rest: seq<Str>)
    requires a != [] && c != [] && c[0] == a[0] && c[1..] == a[1..] + rest
    ensures c == a + rest
  {
    assert c == [c[0]] + c[1..] && a == [a[0]] + a[1..];
  }

  lemma {:induction false} WordCat(a: Str, rest: Str)
    requires rest != [] && rest[0] == SLASH
    ensures Word(a + rest) == Word(a)
  {
    if a == [] {
      assert a + rest == rest;
    } else {
      assert (a + rest)[1..] == a[1..] + rest;
      WordCat(a[1..], rest);
    }
  }
}
