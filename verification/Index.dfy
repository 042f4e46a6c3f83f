/**
 * The look-up tables of libs/DTBExtnLib/DTBExtnLib_node.c: a table of the hashes of node paths, and one of node offsets
 * by phandle, which answer as fdt_path_offset and fdt_node_offset_by_phandle do.
 */
module NodeIndex {
  import opened Bytes
  import opened Tree
  import opened Encoding
  import opened Positions
  import opened Tags
  import opened FdtRead
  import opened Overlay
  import opened Refs
  import opened Walk
  import opened Paths
  import opened Family

  // ----- Nodes and their phandles -----

  predicate IsNode(p: Pos, f: Forest) {
    p.f.SubF? && Whole(p) == f
  }

  /** The phandle of the node at p. */
  function PhandleAt(p: Pos): nat
    requires p.f.SubF?
  {
    PhandleOf(Read(p, PHANDLE), Read(p, LINUX_PHANDLE))
  }

  /** fdt_get_phandle. */
  method GetPhandle(v: Fdt, off: int, ghost p: Pos) returns (r: nat)
    requires At(v, p, off) && p.f.SubF?
    ensures r == PhandleAt(p)
  {
    var d := ReadProp(v, off, PHANDLE, p);
    if d.None? || |d.value| != 4 {
      var e := ReadProp(v, off, LINUX_PHANDLE, p);
      if e.None? || |e.value| != 4 {
        return 0;
      }
      return Get32(e.value, 0);
    }
    return Get32(d.value, 0);
  }

  /** A scan without a depth stops at the first node, if there is one ahead. */
  lemma {:induction false} ScanFinds(x: Pos, k: int, p: Pos)
    requires Reaches(x, p) && p.f.SubF?
    ensures var s := ScanFrom(x, k, false); s.Found? && Reaches(s.p, p)
    decreases Remaining(x)
  {
    if !x.f.SubF? {
      ScanFinds(Next(x), if TagAt(x).EndNode? then k - 1 else k, p);
    }
  }

  lemma {:induction false} NeverLeaves(x: Pos, k: int)
    ensures !ScanFrom(x, k, false).Left?
    decreases Remaining(x)
  {
    if !x.f.SubF? && !TagAt(x).End? {
      NeverLeaves(Next(x), if TagAt(x).EndNode? then k - 1 else k);
    }
  }

  /** r is a node with phandle w, or an error if there is none. */
  ghost predicate ByPhandle(f: Forest, w: nat, r: int) {
    if w == 0 || w == U32 - 1 then r == -BADPHANDLE else
    if r >= 0 then exists q :: IsNode(q, f) && PhandleAt(q) == w && r == Off(q.c)
    else r == -NOTFOUND && forall q | IsNode(q, f) :: PhandleAt(q) != w
  }

  /** r is what fdt_node_offset_by_phandle answers: the first node with phandle w, or that there is none. */
  ghost predicate FirstByPhandle(f: Forest, w: nat, r: int) {
    ByPhandle(f, w, r) && (r >= 0 ==> forall p | IsNode(p, f) && PhandleAt(p) == w :: r <= Off(p.c))
  }

  /** All nodes with phandle w lie ahead of q, or there is none if nothing is ahead. */
  ghost predicate Ahead(f: Forest, w: nat, s: Scan) {
    forall p | IsNode(p, f) && PhandleAt(p) == w :: s.Found? && Reaches(s.p, p)
  }

  lemma AheadStart(f: Forest, w: nat)
    ensures Ahead(f, w, ScanFrom(Pos(Top, f), 0, false))
  {
    forall p | IsNode(p, f) && PhandleAt(p) == w
      ensures var s := ScanFrom(Pos(Top, f), 0, false); s.Found? && Reaches(s.p, p)
    {
      StartReaches(p.c, p.f);
      ScanFinds(Pos(Top, f), 0, p);
    }
  }

  lemma AheadOn(f: Forest, w: nat, q: Pos, d: int)
    requires IsNode(q, f) && PhandleAt(q) != w && Ahead(f, w, Found(q, d))
    ensures Ahead(f, w, ScanFrom(Enter(q), d, false))
  {
    forall p | IsNode(p, f) && PhandleAt(p) == w
      ensures var s := ScanFrom(Enter(q), d, false); s.Found? && Reaches(s.p, p)
    {
      assert Reaches(q, p) && q != p;
      ScanFinds(Enter(q), d, p);
    }
  }

  lemma AheadFirst(f: Forest, w: nat, q: Pos, d: int)
    requires IsNode(q, f) && PhandleAt(q) == w && Ahead(f, w, Found(q, d))
    ensures forall p | IsNode(p, f) && PhandleAt(p) == w :: Off(q.c) <= Off(p.c)
  {
    hide Off, PhandleAt;
    forall p | IsNode(p, f) && PhandleAt(p) == w
      ensures Off(q.c) <= Off(p.c)
    {
      ReachesForward(q, p);
    }
  }

  /** fdt_node_offset_by_phandle. */
  method NodeOffsetByPhandle(v: Fdt, w: nat, ghost f: Forest) returns (r: int)
    requires Encodes(v, f) && IsRoot(f)
    ensures FirstByPhandle(f, w, r)
  {
    hide Encodes, Whole, Off, Reaches, ScanFrom, Read, Remaining, Plug;
    if w == 0 || w == U32 - 1 {
      return -BADPHANDLE;
    }
    RootAt(v, f);
    ghost var s;
    var d := 0;
    WholeTop(f);
    AheadStart(f, w);
    NeverLeaves(Pos(Top, f), 0);
    r, d, s := NextNode(v, -1, 0, false, Pos(Top, f));
    while r >= 0
      invariant !s.Left? && Ahead(f, w, s)
      invariant if s.Found? then At(v, s.p, r) && s.p.f.SubF? && Whole(s.p) == f && s.depth == d && r >= 0
                else r == -NOTFOUND
      decreases if s.Found? then Remaining(s.p) + 1 else 0
    {
      ghost var q := s.p;
      var x := GetPhandle(v, r, q);
      if x == w {
        AheadFirst(f, w, q, d);
        return;
      }
      AheadOn(f, w, q, d);
      NeverLeaves(Enter(q), d);
      ScanLess(q, d);
      r, d, s := NextNode(v, r, d, false, q);
    }
  }

  lemma WholeTop(f: Forest)
    ensures Whole(Pos(Top, f)) == f
    ensures var s := ScanFrom(Pos(Top, f), 0, false); s.Found? ==> Whole(s.p) == f
  {
  }

  lemma ScanLess(q: Pos, d: int)
    requires q.f.SubF?
    ensures var s := ScanFrom(Enter(q), d, false); s.Found? ==> Remaining(s.p) < Remaining(q) && Whole(s.p) == Whole(q)
  {
  }

  ghost predicate PhandlesUnique(f: Forest) {
    forall p, q | IsNode(p, f) && IsNode(q, f) && PhandleAt(p) == PhandleAt(q) != 0 :: p == q
  }

  /** There is one first node; and where phandles are unique, the look-up in the cache answers as the search does. */
  lemma OneByPhandle(f: Forest, w: nat, r: int, r': int)
    requires FirstByPhandle(f, w, r) && (FirstByPhandle(f, w, r') || (PhandlesUnique(f) && ByPhandle(f, w, r')))
    ensures r == r'
  {
    hide Off, PhandleAt;
  }

  /** fdt_find_max_phandle. */
  method FindMaxPhandle(v: Fdt, ghost f: Forest) returns (m: nat)
    requires Encodes(v, f) && IsRoot(f)
    ensures forall p | IsNode(p, f) :: PhandleAt(p) <= m
    ensures m == 0 || exists p :: IsNode(p, f) && PhandleAt(p) == m
  {
    hide Encodes, Whole, Off, Reaches, ScanFrom, Read, Remaining, Plug, PhandleAt;
    RootAt(v, f);
    ghost var s;
    var r, d;
    m := 0;
    WholeTop(f);
    NodesAhead(f);
    NeverLeaves(Pos(Top, f), 0);
    r, d, s := NextNode(v, -1, 0, false, Pos(Top, f));
    while r >= 0
      invariant !s.Left? && forall p | IsNode(p, f) :: PhandleAt(p) <= m || (s.Found? && Reaches(s.p, p))
      invariant if s.Found? then At(v, s.p, r) && s.p.f.SubF? && Whole(s.p) == f && s.depth == d && r >= 0
                else r == -NOTFOUND
      invariant m == 0 || exists p :: IsNode(p, f) && PhandleAt(p) == m
      decreases if s.Found? then Remaining(s.p) + 1 else 0
    {
      ghost var q := s.p;
      var x := GetPhandle(v, r, q);
      if x > m {
        m := x;
      }
      NodesAheadOn(f, q, d);
      NeverLeaves(Enter(q), d);
      ScanLess(q, d);
      r, d, s := NextNode(v, r, d, false, q);
    }
  }

  lemma NodesAhead(f: Forest)
    ensures var s := ScanFrom(Pos(Top, f), 0, false); forall p | IsNode(p, f) :: s.Found? && Reaches(s.p, p)
  {
    forall p | IsNode(p, f)
      ensures var s := ScanFrom(Pos(Top, f), 0, false); s.Found? && Reaches(s.p, p)
    {
      StartReaches(p.c, p.f);
      ScanFinds(Pos(Top, f), 0, p);
    }
  }

  lemma NodesAheadOn(f: Forest, q: Pos, d: int)
    requires IsNode(q, f)
    ensures var s := ScanFrom(Enter(q), d, false);
            forall p | IsNode(p, f) && Reaches(q, p) && p != q :: s.Found? && Reaches(s.p, p)
  {
    forall p | IsNode(p, f) && Reaches(q, p) && p != q
      ensures var s := ScanFrom(Enter(q), d, false); s.Found? && Reaches(s.p, p)
    {
      ScanFinds(Enter(q), d, p);
    }
  }

  // ----- Paths as they are indexed -----

  /** The full path of the node at p. */
  function PathText(p: Pos): Str
    requires p.f.SubF?
  {
    PathStr(NamesTo(p))
  }

  /** path_depth: the number of slashes. */
  function Slashes(s: Str): nat {
    if s == [] then 0 else Slashes(s[1..]) + if s[0] == SLASH then 1 else 0
  }

  function LastSlash(s: Str): (i: Option<nat>)
    ensures i.Some? ==> i.value < |s| && s[i.value] == SLASH && SLASH !in s[i.value + 1..]
    ensures i.None? ==> SLASH !in s
  {
    if s == [] then None else
    if s[|s| - 1] == SLASH then Some(|s| - 1) else LastSlash(s[..|s| - 1])
  }

  /** dirname: the parent's path and the last name; base is what the buffer of the last name holds before. */
  function Dirname(path: Str, base: Str): (Str, Str)
    decreases |path|
  {
    match LastSlash(path)
    case None => ([0x2e], base)
    case Some(i) =>
      if i == 0 then ([SLASH], if |path| > 1 then path[1..] else base)
      else if i == 1 && path[0] == SLASH then ([SLASH], path[2..])
      else if i == |path| - 1 then Dirname(path[..i], base)
      else (path[..i], path[i + 1..])
  }

  lemma CompsEnd(a: Str, n: Str)
    requires SLASH !in n
    ensures Comps(a + ([SLASH] + n)) == Comps(a) + (if n == [] then [] else [n])
  {
    hide Comps;
    CompsCat(a, [SLASH] + n);
    CompsSkip([SLASH] + n);
    assert ([SLASH] + n)[1..] == n;
    NoComps();
    if n != [] {
      OneComp(n, []);
      assert n + [] == n;
    }
  }

  /** The directory name and the last name say what the path says; only "/" leaves the last name as it was. */
  lemma {:induction false} DirnameComps(path: Str, base: Str)
    requires path != [] && path[0] == SLASH && path != [SLASH]
    ensures var (d, b) := Dirname(path, base);
            d != [] && d[0] == SLASH && Comps(path) == Comps(d) + if b == [] then [] else [b]
    decreases |path|
  {
    hide Comps, Slashes, LastSlash;
    var i := LastSlash(path).value;
    CutAt(path, i);
    CompsEnd(path[..i], path[i + 1..]);
    RootComps();
    if i <= 1 {
      assert path[..i] == if i == 0 then [] else [SLASH];
    } else {
      if i == |path| - 1 {
        assert path[..i] != [SLASH] by { assert |path[..i]| == i; }
        DirnameComps(path[..i], base);
        assert Comps(path) == Comps(path[..i]);
      }
    }
  }

  lemma CutAt(path: Str, i: nat)
    requires i < |path| && path[i] == SLASH
    ensures path == path[..i] + ([SLASH] + path[i + 1..])
  {
  }

  lemma RootComps()
    ensures Comps([SLASH]) == [] && Comps([]) == []
  {
    CompsSkip([SLASH]);
  }

  lemma {:induction false} DirnameElse(path: Str, base: Str)
    requires path == [] || path[0] != SLASH
    ensures var (d, b) := Dirname(path, base); d != [] && d[0] != SLASH
    decreases |path|
  {
    hide LastSlash;
    var j := LastSlash(path);
    if j.Some? && j.value == |path| - 1 && j.value > 0 {
      DirnameElse(path[..j.value], base);
    }
  }

  lemma {:induction false} SlashesCat(a: Str, b: Str)
    ensures Slashes(a + b) == Slashes(a) + Slashes(b)
  {
    if a == [] {
      assert a + b == b;
    } else {
      assert (a + b)[1..] == a[1..] + b;
      SlashesCat(a[1..], b);
    }
  }

  lemma SlashesFrom(path: Str, i: nat)
    requires i < |path| && path[i] == SLASH
    ensures Slashes(path[..i]) < Slashes(path)
  {
    SlashesCat(path[..i], path[i..]);
    assert path == path[..i] + path[i..];
  }

  lemma SlashesShort()
    ensures Slashes([SLASH]) == 1 && Slashes([0x2e]) == 0
  {
    assert [SLASH][1..] == [] && [0x2e][1..] == [];
  }

  lemma {:induction false} DirnameSlashes(path: Str, base: Str)
    ensures Slashes(Dirname(path, base).0) <= Slashes(path)
    decreases |path|
  {
    hide LastSlash, Slashes;
    SlashesShort();
    var j := LastSlash(path);
    if j.Some? {
      SlashesFrom(path, j.value);
      if j.value == |path| - 1 && j.value > 0 {
        DirnameSlashes(path[..j.value], base);
      }
    }
  }

  // ----- What is asked of a tree -----

  /** A name that could be looked up by nothing but what it says. */
  predicate GoodName(n: Str) {
    Proper(n) && n[0] != '@' as int
  }

  /** Names are as they should be and stand for one node each. */
  ghost predicate PlainTree(f: Forest) {
    && IsRoot(f)
    && (forall p | IsNode(p, f) :: NamesTo(p)[0] == [] && Unambiguous(p)
                                   && forall n | n in NamesTo(p)[1..] :: GoodName(n))
  }

  lemma PlainTreePaths(f: Forest, p: Pos)
    requires PlainTree(f) && IsNode(p, f)
    ensures PathText(p) != [] && PathText(p)[0] == SLASH && PathTo(f, PathText(p)) == Ok(p)
    ensures PathFrom(Pos(Top, f), Comps(PathText(p))) == Some(p) && Comps(PathText(p)) == NamesTo(p)[1..]
  {
    hide PathTo, PathFrom, Unambiguous, PathStr, Comps;
    PathInverts(p);
    PathStrComps(NamesTo(p));
    NamesLead(p);
  }

  // ----- The tables -----

  datatype HashNode = HashNode(offset: nat, hash: nat)
  datatype BlobNode = BlobNode(blob: nat, nodes: seq<HashNode>)
  datatype Cache = Cache(blob: nat, offsets: seq<nat>)

  /** h stands for a node whose path has the hash and as many slashes as the level says. */
  ghost predicate Indexed(f: Forest, hash: Str -> nat, level: int, h: HashNode) {
    exists p :: IsNode(p, f) && h.offset == Off(p.c) && h.hash == hash(PathText(p)) && Slashes(PathText(p)) == level
  }

  ghost predicate LevelSound(trees: map<nat, Forest>, hash: Str -> nat, level: int, bs: seq<BlobNode>) {
    forall b | b in bs :: b.blob in trees && forall h | h in b.nodes :: Indexed(trees[b.blob], hash, level, h)
  }

  const CACHE_MAX := 1000  // MAX_PHANDLE_CACHE_SIZE

  /** An offset in the cache that is not 0 is that of the node with the phandle. */
  ghost predicate CacheSound(trees: map<nat, Forest>, c: Cache) {
    && c.blob in trees && 0 < |c.offsets| <= CACHE_MAX + 1 && c.offsets[0] == 0
    && forall w | 0 < w < |c.offsets| && c.offsets[w] != 0 :: exists p ::
       IsNode(p, trees[c.blob]) && PhandleAt(p) == w && c.offsets[w] == Off(p.c)
  }

  /** find_node's walk through one list. */
  function FindHash(nodes: seq<HashNode>, x: nat): (r: Option<HashNode>)
    ensures r.Some? ==> r.value in nodes && r.value.hash == x
  {
    if nodes == [] then None else
    if nodes[0].hash == x then Some(nodes[0]) else FindHash(nodes[1..], x)
  }

  /** The place of the list of the blob. */
  function FindBlob(bs: seq<BlobNode>, blob: nat): (r: Option<nat>)
    ensures r.Some? ==> r.value < |bs| && bs[r.value].blob == blob
    ensures r.None? ==> forall b | b in bs :: b.blob != blob
  {
    if bs == [] then None else
    if bs[0].blob == blob then Some(0) else
      match FindBlob(bs[1..], blob)
      case None => None
      case Some(i) => Some(i + 1)
  }

  class Index {
    const hash: Str -> nat
    const levels: nat
    ghost const trees: map<nat, Forest>
    var table: seq<seq<BlobNode>>
    var caches: seq<Cache>
    var basename: Str

    ghost predicate Valid()
      reads this
    {
      && |table| == levels >= 2
      && (forall l | 0 <= l < levels :: LevelSound(trees, hash, l, table[l]))
      && (forall c | c in caches :: CacheSound(trees, c) && FindBlob(table[0], c.blob).Some?)
    }

    constructor (hash: Str -> nat, levels: nat, ghost trees: map<nat, Forest>)
      requires levels >= 2
      ensures Valid() && this.hash == hash && this.levels == levels && this.trees == trees
    {
      this.hash, this.levels, this.trees := hash, levels, trees;
      table := seq(levels, _ => []);
      caches := [];
      basename := [];
    }

    /** find_node. */
    function FindNode(blob: nat, name: Str): (r: Option<HashNode>)
      reads this
      requires Valid() && Slashes(name) < levels && blob in trees
      ensures r.Some? ==> r.value.hash == hash(name) && Indexed(trees[blob], hash, Slashes(name), r.value)
    {
      var bs := table[Slashes(name)];
      match FindBlob(bs, blob)
      case None => None
      case Some(i) =>
        assert LevelSound(trees, hash, Slashes(name), bs) && bs[i] in bs;
        FindHash(bs[i].nodes, hash(name))
    }

    /**
     * fdt_get_node_handle: the offset of the node of the path, or the error. The path is copied to 256 bytes,
     * unchecked.
     */
    method GetNodeHandle(blob: nat, v: Fdt, name: Str) returns (r: int)
      requires Valid() && blob in trees && Encodes(v, trees[blob]) && PlainTree(trees[blob]) && Slashes(name) < levels
               && |name| < 256
      requires NoCollision(trees[blob], hash, name) && NoCollision(trees[blob], hash, Dirname(name, basename).0)
      modifies this`basename
      ensures Valid() && table == old(table) && caches == old(caches)
      ensures r == OffRes(PathTo(trees[blob], name))
    {
      hide PlainTree, PathTo, Encodes, Indexed, Dirname, NoCollision, Off;
      ghost var f := trees[blob];
      var h := FindNode(blob, name);
      if h.Some? {
        HandleFound(f, hash, name, h.value);
        return h.value.offset;
      }
      RootDirname(basename);
      var (parent, base) := Dirname(name, basename);
      basename := base;
      DirnameSlashes(name, old(basename));
      h := FindNode(blob, parent);
      if h.Some? {
        ghost var q := ParentFound(f, hash, name, old(basename), h.value);
        AtNode(v, f, q);
        r := SubnodeOffset(v, h.value.offset, base, q);
        if r >= 0 {
          SubFound(f, name, old(basename), q);
          return;
        }
      }
      PlainRoot(f);
      r := PathOffset(v, name, f);
    }

    /** fdt_get_phandle_node: the offset of the node with the phandle, or the error. */
    method GetPhandleNode(blob: nat, v: Fdt, w: nat) returns (r: int)
      requires Valid() && blob in trees && Encodes(v, trees[blob]) && IsRoot(trees[blob])
      ensures ByPhandle(trees[blob], w, r)
    {
      hide Encodes, Off;
      r := 0;
      var i := 0;
      while i < |caches| && !(caches[i].blob == blob && |caches[i].offsets| > w)
        invariant i <= |caches|
      {
        i := i + 1;
      }
      if i < |caches| {
        r := caches[i].offsets[w];
        assert CacheSound(trees, caches[i]);
        CachedIs(trees, caches[i], w);
      }
      if r <= 0 {
        r := NodeOffsetByPhandle(v, w, trees[blob]);
      }
    }

    /** is_merge_dtb. */
    predicate IsMerged(blob: nat)
      reads this
    {
      exists l, i :: 0 <= l < |table| && 0 <= i < |table[l]| && table[l][i].blob == blob
    }

    predicate HasCache(blob: nat)
      reads this
    {
      exists i :: 0 <= i < |caches| && caches[i].blob == blob
    }

    /** Every level has a list for the blob. */
    ghost predicate HasLists(blob: nat)
      reads this
    {
      forall l | 0 <= l < |table| :: FindBlob(table[l], blob).Some?
    }

    /** add_hash. */
    method AddHash(blob: nat, offset: nat, path: Str, level: nat)
      requires Valid() && blob in trees && level < levels && HasLists(blob)
               && Indexed(trees[blob], hash, level, HashNode(offset, hash(path)))
      modifies this`table
      ensures Valid() && forall x :: old(HasLists(x)) ==> HasLists(x)
      ensures Kept(old(table), table) && InTable(table, level, blob, HashNode(offset, hash(path)))
    {
      hide Indexed, CacheSound;
      var bs, h := table[level], HashNode(offset, hash(path));
      var i := FindBlob(bs, blob).value;
      HashAdded(trees, hash, level, bs, i, h);
      AddedKept(table, level, i, h);
      table := table[level := bs[i := BlobNode(blob, [h] + bs[i].nodes)]];
    }

    /** Of the nodes of the blob, those with a phandle can be put into the first cache. */
    ghost predicate CacheReady(blob: nat)
      reads this
      requires blob in trees
    {
      if caches == [] then forall p | IsNode(p, trees[blob]) :: PhandleAt(p) == 0 else
        caches[0].blob == blob || forall p | IsNode(p, trees[blob]) :: PhandleAt(p) == 0
    }

    /** Recursive_find_subnode, for the node at p. */
    method AddSubnodes(blob: nat, v: Fdt, offset: int, name: Str, depth: nat, ghost p: Pos)
      requires Valid() && blob in trees && At(v, p, offset) && IsNode(p, trees[blob]) && FitsTables(trees[blob], levels)
      requires name == PathText(p) && depth == Depth(p.c) && HasLists(blob) && CacheReady(blob)
      modifies this`table, this`caches
      ensures Valid() && HasLists(blob) && CacheReady(blob) && Kept(old(table), table) && AllBelow(table, hash, blob, p)
      decreases FSize(p.f.body)
    {
      hide Encodes, Off, Plug, Read, FSize, Indexed, LevelSound, CacheSound, FitsTables, FindSub, PhandleAt, PathText,
        Kids, KidsFrom, HasEntry, AllBelow, InTable,
        Slashes, Kept, AllDone;
      ghost var f := trees[blob];
      ghost var s, done: seq<Pos> := FindSub(Enter(p), Any), [];
      KidsStart(p);
      NoneDone(table, hash, blob);
      FirstSmaller(p);
      var node := FirstSubnode(v, offset, p);
      while node >= 0
        invariant Valid() && HasLists(blob) && CacheReady(blob) && Kept(old(table), table)
        invariant if s.None? then node < 0 else At(v, s.value, node) && IsNode(s.value, f) && IsChild(s.value, p)
        invariant Kids(Enter(p)) == done + KidsFrom(s)
        invariant AllDone(table, hash, blob, done)
        decreases if s.None? then 0 else Remaining(s.value) + 1
      {
        ghost var q := s.value;
        ChildPath(f, hash, levels, p, q);
        SubOff(q);
        var x := GetPhandle(v, node, q);
        if 0 < x && x < |caches[0].offsets| {
          CacheMore(trees, caches[0], x, q);
          caches := [Cache(caches[0].blob, caches[0].offsets[x := node])] + caches[1..];
        }
        var sub := GetName(v, node, q);
        var full := if name != [SLASH] then name + [SLASH] + sub.value else name + sub.value;
        ghost var t0 := table;
        AddHash(blob, node, full, depth + 1);
        ghost var t1 := table;
        AddSubnodes(blob, v, node, full, depth + 1, q);
        TurnDone(old(table), t0, t1, table, f, hash, levels, blob, done, q);
        KidsStep(done, q);
        done := done + [q];
        node := NextSubnode(v, node, q);
        NextSmaller(q, p);
        s := FindSub(After(q), Any);
      }
      KidsEnd();
      assert Kids(Enter(p)) == done by { assert done + [] == done; }
      AllDoneBelow(table, hash, blob, p);
    }

    /** alloc_phandle_to_node_cache_space. */
    method AllocCache(blob: nat, v: Fdt)
      requires Valid() && blob in trees && Encodes(v, trees[blob]) && IsRoot(trees[blob]) && !IsMerged(blob)
      modifies this`caches
      ensures CacheReady(blob)
      ensures forall c | c in caches :: CacheSound(trees, c) && (c.blob == blob || FindBlob(table[0], c.blob).Some?)
    {
      hide Encodes, LevelSound, CacheSound, PhandleAt;
      if HasCache(blob) {
        return;
      }
      var m := FindMaxPhandle(v, trees[blob]);
      if m > CACHE_MAX {
        m := CACHE_MAX;
      }
      if m != 0 {
        NewCache(trees, blob, m);
        caches := [Cache(blob, seq(m + 1, _ => 0))] + caches;
      }
    }

    /** init_root, up to the entry for the root. */
    method AddLists(blob: nat)
      requires blob in trees && |table| == levels >= 2
               && forall l | 0 <= l < levels :: LevelSound(trees, hash, l, table[l])
      requires forall c | c in caches :: CacheSound(trees, c) && (c.blob == blob || FindBlob(table[0], c.blob).Some?)
      modifies this`table
      ensures Valid() && HasLists(blob)
    {
      hide CacheSound, Indexed;
      table := seq(levels, l requires 0 <= l < |table| reads this => [BlobNode(blob, [])] + table[l]);
    }

    /** free_hash_tables and free_phandle_to_node_cache. */
    method FreeTables()
      requires Valid()
      modifies this`table, this`caches
      ensures Valid() && caches == [] && forall l | 0 <= l < levels :: table[l] == []
    {
      table := seq(levels, _ => []);
      caches := [];
    }

    /** CreatDtbHashTable: the second table for the same blob makes an end of all tables. */
    method CreateTable(blob: nat, v: Fdt) returns (err: int)
      requires Valid() && blob in trees && Encodes(v, trees[blob]) && IsRoot(trees[blob])
               && FitsTables(trees[blob], levels)
      modifies this`table, this`caches
      ensures Valid() && err == 0
      ensures old(IsMerged(blob)) ==> caches == [] && forall l | 0 <= l < levels :: table[l] == []
      ensures !old(IsMerged(blob)) ==> HasLists(blob)
                                       && forall p | IsNode(p, trees[blob]) :: HasEntry(table, hash, blob, p)
    {
      hide Encodes, Off, Plug, Read, FSize, Indexed, CacheSound, LevelSound, FitsTables, PhandleAt, PathText, HasEntry,
        InTable, AllBelow, Kept;
      ghost var f := trees[blob];
      if IsMerged(blob) {
        FreeTables();
        return 0;
      }
      AllocCache(blob, v);
      AddLists(blob);
      RootAt(v, f);
      RootIndexed(f, hash, levels);
      AddHash(blob, 0, [SLASH], 1);
      ghost var t := table;
      AddSubnodes(blob, v, 0, [SLASH], 0, Pos(Top, f));
      AllNodes(t, table, f, hash, levels, blob);
      return 0;
    }
  }

  // ----- Every node has its entry -----

  /** The table of the level l has the entry h for the blob. */
  ghost predicate InTable(table: seq<seq<BlobNode>>, l: nat, blob: nat, h: HashNode) {
    l < |table| && FindBlob(table[l], blob).Some? && h in table[l][FindBlob(table[l], blob).value].nodes
  }

  /** Entries are not lost. */
  ghost predicate Kept(t: seq<seq<BlobNode>>, t': seq<seq<BlobNode>>) {
    forall l, b, h | InTable(t, l, b, h) :: InTable(t', l, b, h)
  }

  /** The node at x has its entry. */
  ghost predicate HasEntry(table: seq<seq<BlobNode>>, hash: Str -> nat, blob: nat, x: Pos) {
    x.f.SubF? && Off(x.c) >= 0 && InTable(table, Slashes(PathText(x)), blob, HashNode(Off(x.c), hash(PathText(x))))
  }

  /** The node x is below the node p. */
  predicate Under(x: Pos, p: Pos) {
    x.f.SubF? && Depth(p.c) < Depth(x.c) && Ancestor(x, Depth(p.c)) == p
  }

  /** All nodes below p have their entries. */
  ghost predicate AllBelow(table: seq<seq<BlobNode>>, hash: Str -> nat, blob: nat, p: Pos) {
    forall x | Under(x, p) :: HasEntry(table, hash, blob, x)
  }

  /** The nodes done, and all below them, have their entries. */
  ghost predicate AllDone(table: seq<seq<BlobNode>>, hash: Str -> nat, blob: nat, done: seq<Pos>) {
    forall c | c in done :: HasEntry(table, hash, blob, c) && AllBelow(table, hash, blob, c)
  }

  lemma NoneDone(table: seq<seq<BlobNode>>, hash: Str -> nat, blob: nat)
    ensures AllDone(table, hash, blob, []) && Kept(table, table)
  {
  }

  lemma KeptTrans(t: seq<seq<BlobNode>>, t1: seq<seq<BlobNode>>, t2: seq<seq<BlobNode>>)
    requires Kept(t, t1) && Kept(t1, t2)
    ensures Kept(t, t2)
  {
    hide InTable;
  }

  lemma AddedKept(t: seq<seq<BlobNode>>, level: nat, i: nat, h: HashNode)
    requires level < |t| && i < |t[level]| && FindBlob(t[level], t[level][i].blob) == Some(i)
    ensures var t' := t[level := t[level][i := BlobNode(t[level][i].blob, [h] + t[level][i].nodes)]];
            Kept(t, t') && InTable(t', level, t[level][i].blob, h)
  {
    var bs := t[level];
    var cs := bs[i := BlobNode(bs[i].blob, [h] + bs[i].nodes)];
    forall x
      ensures FindBlob(cs, x) == FindBlob(bs, x)
    {
      SameBlobs(bs, cs, x);
    }
  }

  lemma KeptEntry(t: seq<seq<BlobNode>>, t': seq<seq<BlobNode>>, hash: Str -> nat, blob: nat, p: Pos)
    requires Kept(t, t')
    ensures HasEntry(t, hash, blob, p) ==> HasEntry(t', hash, blob, p)
    ensures AllBelow(t, hash, blob, p) ==> AllBelow(t', hash, blob, p)
  {
    hide InTable, Off, PathText, Slashes, Under;
  }

  /** One turn of the loop over the subnodes: the entry for q has been added, and then those for the nodes below q. */
  lemma TurnDone(t: seq<seq<BlobNode>>, t0: seq<seq<BlobNode>>, t1: seq<seq<BlobNode>>, t2: seq<seq<BlobNode>>,
      f: Forest, hash: Str -> nat, levels: nat,
                 blob: nat, done: seq<Pos>, q: Pos)
    requires IsNode(q, f) && FitsTables(f, levels) && Depth(q.c) > 0 && AllDone(t0, hash, blob, done)
    requires Kept(t, t0) && Kept(t0, t1) && Kept(t1, t2) && AllBelow(t2, hash, blob, q)
    requires Off(q.c) >= 0 && InTable(t1, Depth(q.c), blob, HashNode(Off(q.c), hash(PathText(q))))
    ensures Kept(t, t2) && AllDone(t2, hash, blob, done + [q])
  {
    hide AllDone, AllBelow, Kept, Off, PathText, Slashes, InTable, FitsTables;
    KeptTrans(t, t0, t1);
    KeptTrans(t, t1, t2);
    TextIsJoin(f, levels, q);
    assert HasEntry(t1, hash, blob, q);
    OneDone(t0, t1, t2, hash, blob, done, q);
  }

  lemma OneDone(t0: seq<seq<BlobNode>>, t1: seq<seq<BlobNode>>, t2: seq<seq<BlobNode>>, hash: Str -> nat, blob: nat,
      done: seq<Pos>, q: Pos)
    requires q.f.SubF? && AllDone(t0, hash, blob, done) && Kept(t0, t1) && Kept(t1, t2) && HasEntry(t1, hash, blob, q)
             && AllBelow(t2, hash, blob, q)
    ensures AllDone(t2, hash, blob, done + [q])
  {
    hide HasEntry, AllBelow, Kept;
    forall c | c in done + [q]
      ensures HasEntry(t2, hash, blob, c) && AllBelow(t2, hash, blob, c)
    {
      KeptEntry(t0, t1, hash, blob, c);
      KeptEntry(t1, t2, hash, blob, c);
    }
  }

  lemma {:induction false} KidsMore(c: Ctx, f: Forest, q: Pos)
    requires Depth(c) > 0 && q in Kids(Pos(c, f))
    ensures q in Kids(Enter(Parent(c, f)))
    decreases c
  {
    if !c.frame.InBody? {
      KidsMore(c.up, Fill(c.frame, f), q);
    }
  }

  /** A node below p is a child of p or below one. */
  lemma {:induction false} UnderKid(x: Pos, p: Pos)
    requires Under(x, p) && p.f.SubF?
    ensures var q := Ancestor(x, Depth(p.c) + 1); q in Kids(Enter(p)) && (x == q || Under(x, q))
    decreases Depth(x.c)
  {
    hide Kids, Plug, Chain;
    if Depth(x.c) == Depth(p.c) + 1 {
      assert x in Kids(x) by { KidFirst(x); }
      assert x == Pos(x.c, x.f) && Ancestor(x, Depth(p.c)) == Ancestor(Parent(x.c, x.f), Depth(p.c)) ==
             Parent(x.c, x.f);
      KidsMore(x.c, x.f, x);
    } else {
      UnderKid(Parent(x.c, x.f), p);
    }
  }

  lemma KidFirst(x: Pos)
    requires x.f.SubF?
    ensures x in Kids(x)
  {
  }

  lemma AllDoneBelow(table: seq<seq<BlobNode>>, hash: Str -> nat, blob: nat, p: Pos)
    requires p.f.SubF? && AllDone(table, hash, blob, Kids(Enter(p)))
    ensures AllBelow(table, hash, blob, p)
  {
    hide HasEntry, Kids, Under;
    forall x | Under(x, p)
      ensures HasEntry(table, hash, blob, x)
    {
      UnderDepth(x, p);
      UnderKid(x, p);
      var q := Ancestor(x, Depth(p.c) + 1);
      assert AllBelow(table, hash, blob, q);
    }
  }

  lemma UnderDepth(x: Pos, p: Pos)
    requires Under(x, p)
    ensures x.f.SubF? && Depth(p.c) < Depth(x.c)
  {
  }

  /** Every node of a tree is its root or below it. */
  lemma RootOrUnder(f: Forest, x: Pos)
    requires IsRoot(f) && IsNode(x, f)
    ensures x == Pos(Top, f) || Under(x, Pos(Top, f))
  {
    var q := Ancestor(x, 0);
    if !q.c.Top? {
      NotRoot(q.c, q.f);
    }
  }

  lemma AllNodes(t: seq<seq<BlobNode>>, t': seq<seq<BlobNode>>, f: Forest, hash: Str -> nat, levels: nat, blob: nat)
    requires IsRoot(f) && FitsTables(f, levels) && Kept(t, t') && InTable(t, 1, blob, HashNode(0, hash([SLASH])))
             && AllBelow(t', hash, blob, Pos(Top, f))
    ensures forall p | IsNode(p, f) :: HasEntry(t', hash, blob, p)
  {
    hide Under, FitsTables, Slashes, InTable, PathText;
    RootIndexed(f, hash, levels);
    SlashesShort();
    assert Off(Top) == 0;
    forall p | IsNode(p, f)
      ensures HasEntry(t', hash, blob, p)
    {
      RootOrUnder(f, p);
    }
  }

  // ----- Building the tables -----

  /** What the tables can hold: paths of fewer levels and bytes, and phandles that are positive as signed numbers. */
  ghost predicate FitsTables(f: Forest, levels: nat) {
    forall p | IsNode(p, f) ::
      && NamesTo(p)[0] == [] && (forall n | n in NamesTo(p)[1..] :: Proper(n))
      && Depth(p.c) < levels && |PathText(p)| < 256 && PhandleAt(p) <= INT_MAX
  }

  ghost predicate IsChild(q: Pos, p: Pos)
    requires p.f.SubF?
  {
    q.f.SubF? && Depth(q.c) > 0 && Parent(q.c, q.f) == p && FSize(q.f) <= FSize(p.f.body)
  }

  lemma {:induction false} FoundSmaller(p: Pos, k: Key)
    requires FindSub(p, k).Some?
    ensures FSize(FindSub(p, k).value.f) <= FSize(p.f)
    decreases p.f
  {
    match p.f
    case SubF(n, _, _) => if !Matches(k, n) { FoundSmaller(After(p), k); }
    case NopF(_) => FoundSmaller(Next(p), k);
    case PropF(_, _, _) => FoundSmaller(Next(p), k);
  }

  lemma FirstSmaller(p: Pos)
    requires p.f.SubF?
    ensures var s := FindSub(Enter(p), Any); s.Some? ==> IsChild(s.value, p) && Whole(s.value) == Whole(p)
  {
    hide FSize, Plug, Chain;
    if FindSub(Enter(p), Any).Some? {
      FoundSmaller(Enter(p), Any);
      FoundIsChild(p, Enter(p), Any);
    }
  }

  lemma AfterSmaller(q: Pos)
    requires q.f.SubF?
    ensures FSize(After(q).f) <= FSize(q.f)
  {
  }

  lemma NextSmaller(q: Pos, p: Pos)
    requires p.f.SubF? && IsChild(q, p)
    ensures var s := FindSub(After(q), Any);
            s.Some? ==> IsChild(s.value, p) && Whole(s.value) == Whole(p) && Remaining(s.value) < Remaining(q)
  {
    hide FSize, Plug, Chain;
    AfterSmaller(q);
    if FindSub(After(q), Any).Some? {
      FoundSmaller(After(q), Any);
      FoundIsChild(p, After(q), Any);
    }
  }

  lemma {:induction false} NoSlashes(n: Str)
    requires SLASH !in n
    ensures Slashes(n) == 0
  {
    if n != [] {
      NoSlashes(n[1..]);
    }
  }

  lemma {:induction false} SlashesJoin(names: seq<Str>)
    requires forall n | n in names :: SLASH !in n
    ensures Slashes(Join(names)) == |names|
  {
    hide Slashes;
    SlashesShort();
    if names != [] {
      assert forall n | n in names[1..] :: n in names;
      SlashesJoin(names[1..]);
      NoSlashes(names[0]);
      SlashesCat([SLASH] + names[0], Join(names[1..]));
      SlashesCat([SLASH], names[0]);
    } else {
      NoSlashes([]);
    }
  }

  lemma TextIsJoin(f: Forest, levels: nat, p: Pos)
    requires FitsTables(f, levels) && IsNode(p, f)
    ensures PathText(p) == if Depth(p.c) == 0 then [SLASH] else Join(NamesTo(p)[1..])
    ensures PathText(p) == [SLASH] <==> Depth(p.c) == 0
    ensures Slashes(PathText(p)) == if Depth(p.c) == 0 then 1 else Depth(p.c)
  {
    hide Chain, Plug, Full, Slashes, PhandleAt;
    var names := NamesTo(p);
    FullIsJoin(names);
    SlashesShort();
    if Depth(p.c) == 0 {
      assert names[1..] == [];
    } else {
      assert names[1..] != [] && names[1] in names[1..];
      assert Join(names[1..]) == [SLASH] + names[1] + Join(names[1..][1..]);
      SlashesJoin(names[1..]);
    }
  }

  /** The path of a child is its parent's and its name. */
  lemma ChildPath(f: Forest, hash: Str -> nat, levels: nat, p: Pos, q: Pos)
    requires FitsTables(f, levels) && IsNode(p, f) && IsNode(q, f) && IsChild(q, p)
    ensures PathText(q) == if PathText(p) != [SLASH] then PathText(p) + [SLASH] + q.f.name else PathText(p) + q.f.name
    ensures Depth(q.c) == Depth(p.c) + 1 < levels && FSize(q.f.body) < FSize(p.f.body)
    ensures Indexed(f, hash, Depth(q.c), HashNode(Off(q.c), hash(PathText(q))))
  {
    hide Chain, Plug, Full, Slashes, PhandleAt, PathText, Join, Off;
    TextIsJoin(f, levels, p);
    TextIsJoin(f, levels, q);
    var names := NamesTo(p)[1..];
    assert NamesTo(q)[1..] == names + [q.f.name];
    JoinLast(names, q.f.name);
    if names == [] {
      JoinNone();
    }
    assert Join(names) + ([SLASH] + q.f.name) == Join(names) + [SLASH] + q.f.name;
  }

  lemma JoinNone()
    ensures Join([]) == []
  {
  }

  lemma SubOff(q: Pos)
    requires q.f.SubF?
    ensures Off(q.c) >= 0
  {
  }

  lemma RootIndexed(f: Forest, hash: Str -> nat, levels: nat)
    requires FitsTables(f, levels) && IsRoot(f)
    ensures IsNode(Pos(Top, f), f) && PathText(Pos(Top, f)) == [SLASH] && Depth(Top) == 0
    ensures Indexed(f, hash, 1, HashNode(0, hash([SLASH])))
  {
    hide Slashes, PathText, PhandleAt;
    var p := Pos(Top, f);
    TextIsJoin(f, levels, p);
    assert Off(p.c) == 0;
  }

  lemma HashAdded(trees: map<nat, Forest>, hash: Str -> nat, level: nat, bs: seq<BlobNode>, i: nat, h: HashNode)
    requires LevelSound(trees, hash, level, bs) && i < |bs| && Indexed(trees[bs[i].blob], hash, level, h)
    ensures LevelSound(trees, hash, level, bs[i := BlobNode(bs[i].blob, [h] + bs[i].nodes)])
    ensures forall x :: FindBlob(bs[i := BlobNode(bs[i].blob, [h] + bs[i].nodes)], x) == FindBlob(bs, x)
  {
    hide Indexed;
    var cs := bs[i := BlobNode(bs[i].blob, [h] + bs[i].nodes)];
    assert bs[i] in bs;
    forall b | b in cs
      ensures b.blob in trees && forall k | k in b.nodes :: Indexed(trees[b.blob], hash, level, k)
    {
      if b !in bs {
        assert b == cs[i];
      }
    }
    forall x
      ensures FindBlob(cs, x) == FindBlob(bs, x)
    {
      SameBlobs(bs, cs, x);
    }
  }

  lemma {:induction false} SameBlobs(bs: seq<BlobNode>, cs: seq<BlobNode>, x: nat)
    requires |bs| == |cs| && forall i | 0 <= i < |bs| :: bs[i].blob == cs[i].blob
    ensures FindBlob(cs, x) == FindBlob(bs, x)
  {
    if bs != [] {
      SameBlobs(bs[1..], cs[1..], x);
    }
  }

  lemma CacheMore(trees: map<nat, Forest>, c: Cache, x: nat, q: Pos)
    requires CacheSound(trees, c) && 0 < x < |c.offsets| && IsNode(q, trees[c.blob]) && PhandleAt(q) == x
    ensures CacheSound(trees, Cache(c.blob, c.offsets[x := Off(q.c)]))
  {
    hide Off, PhandleAt;
  }

  lemma NewCache(trees: map<nat, Forest>, blob: nat, m: nat)
    requires blob in trees && m <= CACHE_MAX
    ensures CacheSound(trees, Cache(blob, seq(m + 1, _ => 0)))
  {
  }

  /** No node of the tree has another path of the same hash as s. */
  ghost predicate NoCollision(f: Forest, hash: Str -> nat, s: Str) {
    forall p | IsNode(p, f) && hash(PathText(p)) == hash(s) :: PathText(p) == s
  }

  lemma PlainRoot(f: Forest)
    requires PlainTree(f)
    ensures IsRoot(f)
  {
  }

  lemma AtNode(v: Fdt, f: Forest, q: Pos)
    requires Encodes(v, f) && IsNode(q, f)
    ensures At(v, q, Off(q.c))
  {
  }

  lemma RootDirname(base: Str)
    ensures Dirname([SLASH], base).0 == [SLASH]
  {
  }

  /** The names of subnodes are as they should be. */
  lemma ChildGood(f: Forest, q: Pos, n: Str)
    requires PlainTree(f) && IsNode(q, f) && FindSub(Enter(q), Named(n)).Some?
    ensures GoodName(FindSub(Enter(q), Named(n)).value.f.name)
  {
    hide Unambiguous, Plug, Chain, GoodName;
    var x := FindSub(Enter(q), Named(n)).value;
    FoundIsChild(q, Enter(q), Named(n));
    assert IsNode(x, f);
    assert NamesTo(x)[1..] == NamesTo(q)[1..] + [x.f.name];
    assert x.f.name in NamesTo(x)[1..];
  }

  /** A search for the empty name finds nothing below a node. */
  lemma NoNameless(f: Forest, q: Pos)
    requires PlainTree(f) && IsNode(q, f)
    ensures FindSub(Enter(q), Named([])) == None
  {
    hide PlainTree, FindSub;
    if FindSub(Enter(q), Named([])).Some? {
      ChildGood(f, q, []);
      FoundName(Enter(q), []);
    }
  }

  lemma {:induction false} FoundName(p: Pos, n: Str)
    ensures FindSub(p, Named(n)).Some? ==> NodeNameEq(FindSub(p, Named(n)).value.f.name, n)
    decreases p.f
  {
    match p.f
    case Nil =>
    case SubF(m, _, _) => if !NodeNameEq(m, n) { FoundName(After(p), n); }
    case _ => FoundName(Next(p), n);
  }

  lemma HandleFound(f: Forest, hash: Str -> nat, name: Str, h: HashNode)
    requires PlainTree(f) && NoCollision(f, hash, name) && Indexed(f, hash, Slashes(name), h) && h.hash == hash(name)
    ensures h.offset == OffRes(PathTo(f, name))
  {
    hide PlainTree, PathTo, Off, PathText, Slashes;
    var p :| IsNode(p, f) && h.offset == Off(p.c) && h.hash == hash(PathText(p))
      && Slashes(PathText(p)) == Slashes(name);
    PlainTreePaths(f, p);
    PlainRoot(f);
  }

  /** The parent's entry stands for a node with the parent's path; then the path looked for is absolute. */
  lemma ParentFound(f: Forest, hash: Str -> nat, name: Str, base: Str, h: HashNode) returns (q: Pos)
    requires PlainTree(f) && NoCollision(f, hash, Dirname(name, base).0) && h.hash == hash(Dirname(name, base).0)
    requires Indexed(f, hash, Slashes(Dirname(name, base).0), h)
    ensures IsNode(q, f) && h.offset == Off(q.c) && PathText(q) == Dirname(name, base).0 && name != []
            && name[0] == SLASH
  {
    hide PlainTree, PathTo, Off, PathText, Slashes, Dirname;
    q :| IsNode(q, f) && h.offset == Off(q.c) && h.hash == hash(PathText(q))
      && Slashes(PathText(q)) == Slashes(Dirname(name, base).0);
    PlainTreePaths(f, q);
    if name == [] || name[0] != SLASH {
      DirnameElse(name, base);
    }
  }

  /** A subnode found below the parent is what the whole path leads to. */
  lemma SubFound(f: Forest, name: Str, base: Str, q: Pos)
    requires PlainTree(f) && IsNode(q, f) && name != [] && name[0] == SLASH && PathText(q) == Dirname(name, base).0
    requires FindSub(Enter(q), Named(Dirname(name, base).1)).Some? && name != [SLASH]
    ensures PathTo(f, name) == Ok(FindSub(Enter(q), Named(Dirname(name, base).1)).value)
  {
    hide PlainTree, Dirname, PathText, Comps, PathFrom;
    PlainRoot(f);
    DirnameComps(name, base);
    PlainTreePaths(f, q);
    var b := Dirname(name, base).1;
    if b == [] {
      NoNameless(f, q);
    } else {
      PathFromCat(Pos(Top, f), Comps(PathText(q)), b);
    }
  }

  lemma CachedIs(trees: map<nat, Forest>, c: Cache, w: nat)
    requires CacheSound(trees, c) && w < |c.offsets|
    ensures c.offsets[w] > 0 ==> ByPhandle(trees[c.blob], w, c.offsets[w])
  {
    hide Off, PhandleAt;
  }
}
