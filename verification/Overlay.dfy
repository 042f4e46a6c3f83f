/**
 * Applying an overlay with libfdt (libs/libfdt/fdt_overlay.c, fdt_overlay_apply) as functions of the
 * content of the two root nodes: shift the overlay's phandles above the base's, follow with the local
 * references, resolve the references into the base, give conflicting phandles the base's value, merge.
 */
module Overlay {
  import opened Bytes
  import opened Tree
  import opened Encoding
  import opened Positions
  import opened Edits
  import opened Merge
  import opened Sem
  import opened FixupText

  const PHANDLE: Str := [0x70, 0x68, 0x61, 0x6e, 0x64, 0x6c, 0x65]  // phandle
  // linux,phandle
  const LINUX_PHANDLE: Str := [0x6c, 0x69, 0x6e, 0x75, 0x78, 0x2c, 0x70, 0x68, 0x61, 0x6e, 0x64, 0x6c, 0x65]
  const OVERLAY: Str := [0x5f, 0x5f, 0x6f, 0x76, 0x65, 0x72, 0x6c, 0x61, 0x79, 0x5f, 0x5f]  // __overlay__
  // __local_fixups__
  const LOCAL_FIXUPS: Str := [0x5f, 0x5f, 0x6c, 0x6f, 0x63, 0x61, 0x6c, 0x5f, 0x66, 0x69, 0x78, 0x75, 0x70, 0x73, 0x5f,
    0x5f]
  const FIXUPS: Str := [0x5f, 0x5f, 0x66, 0x69, 0x78, 0x75, 0x70, 0x73, 0x5f, 0x5f]  // __fixups__
  const SYMBOLS: Str := [0x5f, 0x5f, 0x73, 0x79, 0x6d, 0x62, 0x6f, 0x6c, 0x73, 0x5f, 0x5f]  // __symbols__
  const ALIASES: Str := [0x61, 0x6c, 0x69, 0x61, 0x73, 0x65, 0x73]  // aliases
  const TARGET: Str := [0x74, 0x61, 0x72, 0x67, 0x65, 0x74]  // target
  const TARGET_PATH: Str := [0x74, 0x61, 0x72, 0x67, 0x65, 0x74, 0x2d, 0x70, 0x61, 0x74, 0x68]  // target-path

  datatype Res<+T> = Ok(v: T) | Err(code: int) {
    predicate IsFailure() {
      Err?
    }
    function PropagateFailure<U>(): Res<U>
      requires Err?
    {
      Err(code)
    }
    function Extract(): T
      requires Ok?
    {
      v
    }
  }

  // ----- Phandles -----

  /** The value of property x if it is one cell. */
  function CellOf(b: Forest, x: Str): (r: Option<nat>)
    ensures r.Some? ==> r.value < U32
  {
    match Data(b, x)
    case Some(d) => if |d| == 4 then Some(Get32(d, 0)) else None
    case None => None
  }

  /** fdt_get_phandle. */
  function Phandle(b: Forest): (v: nat)
    ensures v < U32
  {
    match CellOf(b, PHANDLE)
    case Some(v) => v
    case None => match CellOf(b, LINUX_PHANDLE) case Some(v) => v case None => 0
  }

  /** fdt_find_max_phandle, over the node with content b and all below it. */
  function MaxPhandle(b: Forest): (v: nat)
    ensures v < U32 && Phandle(b) <= v
    decreases b, 1
  {
    var m := MaxBelow(b);
    if Phandle(b) > m then Phandle(b) else m
  }

  function MaxBelow(b: Forest): (v: nat)
    ensures v < U32
    decreases b, 0
  {
    match b
    case Nil => 0
    case SubF(_, k, r) => if MaxPhandle(k) > MaxBelow(r) then MaxPhandle(k) else MaxBelow(r)
    case _ => MaxBelow(b.rest)
  }

  /** overlay_phandle_add_offset, with a missing property passed over as its callers do. */
  function AddOffset(b: Forest, x: Str, delta: nat): Res<Forest> {
    if !HasProp(b, x) then Ok(b) else
      var d := PropData(b, x);
      if |d| != 4 then Err(-BADPHANDLE) else
      if Get32(d, 0) + delta >= U32 - 1 then Err(-NOPHANDLES) else
      Ok(PutProp(b, x, Put32(Get32(d, 0) + delta)))
  }

  /** overlay_adjust_node_phandles. */
  function Shift(b: Forest, delta: nat): Res<Forest>
    decreases FSize(b), 1
  {
    var b1 :- AddOffset(b, PHANDLE, delta);
    var b2 :- AddOffset(b1, LINUX_PHANDLE, delta);
    ShiftSize(b, b1, PHANDLE, delta);
    ShiftSize(b1, b2, LINUX_PHANDLE, delta);
    ShiftSubs(b2, delta)
  }

  function ShiftSubs(b: Forest, delta: nat): Res<Forest>
    decreases FSize(b), 0
  {
    match b
    case Nil => Ok(Nil)
    case NopF(r) => var r' :- ShiftSubs(r, delta); Ok(NopF(r'))
    case PropF(n, d, r) => var r' :- ShiftSubs(r, delta); Ok(PropF(n, d, r'))
    case SubF(n, k, r) => var k' :- Shift(k, delta); var r' :- ShiftSubs(r, delta); Ok(SubF(n, k', r'))
  }

  lemma ShiftSize(b: Forest, b': Forest, x: Str, delta: nat)
    requires AddOffset(b, x, delta) == Ok(b')
    ensures FSize(b') == FSize(b)
  {
    if HasProp(b, x) {
      PutSize(b, x, Put32(Get32(PropData(b, x), 0) + delta));
    }
  }

  lemma {:induction false} PutSize(b: Forest, x: Str, d: Str)
    requires HasProp(b, x) && |d| == |PropData(b, x)|
    ensures FSize(PutProp(b, x, d)) == FSize(b)
  {
    match b
    case PropF(n, _, r) => if n != x { PutSize(r, x, d); }
    case NopF(r) => PutSize(r, x, d);
  }

  // ----- Local references -----

  /** d with every cell whose offset is listed in l passed through g. */
  function MapCells(d: Str, l: Str, g: nat -> nat): (r: Option<Str>)
    ensures r.Some? ==> |r.value| == |d|
    decreases |l|
  {
    if |l| < 4 then Some(d) else
      var i := Get32(l, 0);
      if i + 4 > |d| then None else MapCells(Overwrite(d, i, Put32(g(Get32(d, i)) % U32)), l[4..], g)
  }

  /**
   * overlay_update_local_node_references and overlay_update_node_conflicting_references: the node with
   * content t, rewritten by g wherever the matching node of the local fixups, with content fx, says so.
   */
  function Rewrite(t: Forest, fx: Forest, g: nat -> nat): Res<Forest>
    decreases fx, 1
  {
    var t1 :- RewriteProps(t, fx, g);
    RewriteSubs(t1, fx, g)
  }

  function RewriteProps(t: Forest, fx: Forest, g: nat -> nat): Res<Forest>
    decreases fx
  {
    match fx
    case PropF(n, l, r) =>
      if |l| % 4 != 0 || !HasProp(t, n) then Err(-BADOVERLAY) else
        (match MapCells(PropData(t, n), l, g)
         case None => Err(WILD)
         case Some(d) => RewriteProps(PutProp(t, n, d), r, g))
    case NopF(r) => RewriteProps(t, r, g)
    case _ => Ok(t)
  }

  function RewriteSubs(t: Forest, fx: Forest, g: nat -> nat): Res<Forest>
    decreases fx, 0
  {
    match fx
    case Nil => Ok(t)
    case SubF(n, k, r) =>
      if !HasSub(t, n) then Err(-BADOVERLAY) else
        var j :- Rewrite(SubBody(t, n), k, g);
        RewriteSubs(PutSub(t, n, j), r, g)
    case _ => RewriteSubs(t, fx.rest, g)
  }

  /** The rewriting that the overlay's own local fixups ask for. */
  function RewriteLocal(o: Forest, g: nat -> nat): Res<Forest> {
    if HasSub(o, LOCAL_FIXUPS) then Rewrite(o, SubBody(o, LOCAL_FIXUPS), g) else Ok(o)
  }

  function Adding(delta: nat): nat -> nat {
    v => v + delta
  }

  function Replacing(v: nat, w: nat): nat -> nat {
    u => if u == v then w else u
  }

  // ----- Paths -----

  const SLASH: int := 0x2f

  /** The length of s up to the next slash. */
  function Word(s: Str): (n: nat)
    ensures n <= |s|
  {
    if s == [] || s[0] == SLASH then 0 else 1 + Word(s[1..])
  }

  /** The node names of a path. */
  function Comps(s: Str): seq<Str>
    decreases |s|
  {
    if s == [] then [] else
    if s[0] == SLASH then Comps(s[1..]) else
      [s[..Word(s)]] + Comps(s[Word(s)..])
  }

  /** The names of the nodes that the names cs, taken one after the other, lead to. */
  function Resolve(b: Forest, cs: seq<Str>): Option<Path>
    decreases |cs|
  {
    if cs == [] then Some([]) else
    if !HasSub(b, cs[0]) then None else
      match Resolve(SubBody(b, cs[0]), cs[1..])
      case None => None
      case Some(p) => Some([SubName(b, cs[0])] + p)
  }

  /** A value read as a C string. */
  function CStr(d: Str): Str {
    if d == [] || d[0] == 0 then [] else [d[0]] + CStr(d[1..])
  }

  /** fdt_path_offset: an absolute path, or an alias followed by one. */
  function Lookup(b: Forest, s: Str): Res<Path> {
    if s == [] then Err(-BADPATH) else
    if s[0] == SLASH then
      (match Resolve(b, Comps(s)) case Some(p) => Ok(p) case None => Err(-NOTFOUND))
    else
      var alias := if HasSub(b, ALIASES) then Data(SubBody(b, ALIASES), s[..Word(s)]) else None;
      match alias
      case None => Err(-BADPATH)
      case Some(a) =>
        if a == [] || a[|a| - 1] != 0 || a[0] != SLASH then Err(-BADPATH) else
          match Resolve(b, Comps(CStr(a)) + Comps(s[Word(s)..]))
          case Some(p) => Ok(p)
          case None => Err(-NOTFOUND)
  }

  /** fdt_node_offset_by_phandle: the first node, a parent before its children, with phandle v. */
  function PhandlePath(b: Forest, v: nat): Option<Path>
    decreases b, 1
  {
    if Phandle(b) == v then Some([]) else PhandleBelow(b, v)
  }

  function PhandleBelow(b: Forest, v: nat): Option<Path>
    decreases b, 0
  {
    match b
    case Nil => None
    case SubF(n, k, r) => (match PhandlePath(k, v) case Some(p) => Some([n] + p) case None => PhandleBelow(r, v))
    case _ => PhandleBelow(b.rest, v)
  }

  /** fdt_overlay_target_offset: where in the base the fragment with content k is to be merged. */
  function Target(b: Forest, k: Forest): Res<Path> {
    if HasProp(k, TARGET) && (|PropData(k, TARGET)| != 4 || Get32(PropData(k, TARGET), 0) == U32 - 1) then
      Err(-BADPHANDLE) else
      var v := if HasProp(k, TARGET) then Get32(PropData(k, TARGET), 0) else 0;
      if v != 0 then
        (match PhandlePath(b, v) case Some(p) => Ok(p) case None => Err(-NOTFOUND))
      else if HasProp(k, TARGET_PATH) then Lookup(b, CStr(PropData(k, TARGET_PATH)))
      else Err(-BADOVERLAY)
  }

  /** b with k as what the node at path p contains. */
  function PutAt(b: Forest, p: Path, k: Forest): Forest
    requires NodeAt(b, p).Some?
    decreases |p|
  {
    if p == [] then k else PutKid(b, p[0], PutAt(KidAt(b, p[0]).value, p[1..], k))
  }

  function PutKid(b: Forest, n: Str, k: Forest): Forest
    requires KidAt(b, n).Some?
  {
    match b
    case SubF(m, j, r) => if m == n then SubF(m, k, r) else SubF(m, j, PutKid(r, n, k))
    case NopF(r) => NopF(PutKid(r, n, k))
    case PropF(m, d, r) => PropF(m, d, PutKid(r, n, k))
  }

  // ----- References into the base -----

  /** overlay_fixup_one_phandle, whose sum of offset and size wraps at 32 bits; no value is longer than INT_MAX. */
  function FixOne(o: Forest, e: Fixup, v: nat): Res<Forest>
    requires v < U32
  {
    match Lookup(o, e.path)
    case Err(code) => Err(if code == -NOTFOUND then -BADOVERLAY else code)
    case Ok(p) =>
      match NodeAt(o, p)
      case None => Err(-INTERNAL)
      case Some(k) =>
        if !HasProp(k, e.prop) then Err(-NOTFOUND) else
        if e.off + 4 > |PropData(k, e.prop)| || e.off > INT_MAX then
          Err(if |PropData(k, e.prop)| < (e.off + 4) % U32 then -NOSPACE else WILD)
        else Ok(PutAt(o, p, PutProp(k, e.prop, Overwrite(PropData(k, e.prop), e.off, Put32(v)))))
  }

  function FixEach(o: Forest, es: seq<Fixup>, v: nat): Res<Forest>
    requires v < U32
    decreases |es|
  {
    if es == [] then Ok(o) else
      var o1 :- FixOne(o, es[0], v);
      FixEach(o1, es[1..], v)
  }

  /**
   * The loop of overlay_fixup_phandle: the entries of the value d, each read when the ones before it have been stored.
   */
  function FixEntries(o: Forest, d: Str, v: nat): Res<Forest>
    requires v < U32
    decreases |d|
  {
    var n := Find(d, 0);
    if n == |d| then Err(-BADOVERLAY) else
      match FdtEntry(d[..n])
      case None => Err(-BADOVERLAY)
      case Some(e) =>
        var o1 :- FixOne(o, e, v);
        if n + 1 == |d| then Ok(o1) else FixEntries(o1, d[n + 1..], v)
  }

  /** When the loop succeeds, it has read every entry and stored them in order. */
  lemma {:induction false} FixEntriesEach(o: Forest, d: Str, v: nat)
    requires v < U32 && FixEntries(o, d, v).Ok?
    ensures FdtEntries(d).Some? && FixEach(o, FdtEntries(d).value, v) == FixEntries(o, d, v)
    decreases |d|
  {
    hide FixOne, FdtEntry;
    var n := Find(d, 0);
    var e := FdtEntry(d[..n]).value;
    var o1 := FixOne(o, e, v).v;
    if n + 1 == |d| {
      assert [e][1..] == [] && FixEach(o1, [], v) == Ok(o1);
    } else {
      FixEntriesEach(o1, d[n + 1..], v);
      var es := FdtEntries(d[n + 1..]).value;
      assert ([e] + es)[0] == e && ([e] + es)[1..] == es;
    }
  }

  /** overlay_fixup_phandle's look-up: the phandle of the base node that a symbol stands for. */
  function SymbolPhandle(b: Forest, symbol: Str): (r: Res<nat>)
    ensures r.Ok? ==> 0 < r.v < U32
  {
    if !HasSub(b, SYMBOLS) then Err(-BADOFFSET) else
    if !HasProp(SubBody(b, SYMBOLS), symbol) then Err(-NOTFOUND) else
      var p :- Lookup(b, CStr(PropData(SubBody(b, SYMBOLS), symbol)));
      match NodeAt(b, p)
      case None => Err(-INTERNAL)
      case Some(k) => if Phandle(k) == 0 then Err(-NOTFOUND) else Ok(Phandle(k))
  }

  function FixLabels(b: Forest, o: Forest, fx: Forest): Res<Forest>
    decreases fx
  {
    match fx
    case PropF(symbol, d, r) =>
      var v :- SymbolPhandle(b, symbol);
      var o1 :- FixEntries(o, d, v);
      FixLabels(b, o1, r)
    case NopF(r) => FixLabels(b, o, r)
    case _ => Ok(o)
  }

  /** overlay_fixup_phandles. */
  function Fixups(b: Forest, o: Forest): Res<Forest> {
    if HasSub(o, FIXUPS) then FixLabels(b, o, SubBody(o, FIXUPS)) else Ok(o)
  }

  // ----- Conflicting phandles -----

  /** Set property x to the cell v if it is one cell. */
  function SetCell(b: Forest, x: Str, v: nat): Forest
    requires v < U32
  {
    if CellOf(b, x).Some? then PutProp(b, x, Put32(v)) else b
  }

  /** overlay_adjust_local_conflicting_phandle. */
  function SetPhandle(b: Forest, v: nat): Forest
    requires v < U32
  {
    SetCell(SetCell(b, PHANDLE, v), LINUX_PHANDLE, v)
  }

  /** The overlay node at q takes phandle v, and the local references to it follow. */
  function Rename(o: Forest, q: Path, v: nat): Res<Forest>
    requires NodeAt(o, q).Some? && v < U32
  {
    var k := NodeAt(o, q).value;
    RewriteLocal(PutAt(o, q, SetPhandle(k, v)), Replacing(Phandle(k), v))
  }

  /** overlay_prevent_phandle_overwrite_node, for the node at path q of overlay o and the base node with content bb. */
  function PreventNode(o: Forest, q: Path, bb: Forest, shape: Forest): Res<Forest>
    decreases shape, 1
  {
    if NodeAt(o, q).None? then Err(-INTERNAL) else
      var o1 :- if Phandle(bb) != 0 && Phandle(NodeAt(o, q).value) != 0 then Rename(o, q, Phandle(bb)) else Ok(o);
      PreventSubs(o1, q, bb, shape)
  }

  function PreventSubs(o: Forest, q: Path, bb: Forest, shape: Forest): Res<Forest>
    decreases shape, 0
  {
    match shape
    case Nil => Ok(o)
    case SubF(n, k, r) =>
      var o1 :- if HasSub(bb, n) then PreventNode(o, q + [n], SubBody(bb, n), k) else Ok(o);
      PreventSubs(o1, q, bb, r)
    case _ => PreventSubs(o, q, bb, shape.rest)
  }

  /** One turn of overlay_prevent_phandle_overwrite's loop, for fragment f, which had content k at the start. */
  function PreventFragment(b: Forest, o: Forest, f: Str, k: Forest): Res<Forest> {
    if !HasSub(k, OVERLAY) || KidAt(o, f).None? then Ok(o) else
      match Target(b, KidAt(o, f).value)
      case Err(code) => if code == -NOTFOUND then Ok(o) else Err(code)
      case Ok(t) =>
        if NodeAt(b, t).None? then Err(-INTERNAL) else
          PreventNode(o, [f, SubName(k, OVERLAY)], NodeAt(b, t).value, SubBody(k, OVERLAY))
  }

  /** overlay_prevent_phandle_overwrite: frags is what is left of the overlay's root. */
  function Prevent(b: Forest, o: Forest, frags: Forest): Res<Forest>
    decreases frags
  {
    match frags
    case Nil => Ok(o)
    case SubF(f, k, r) => var o1 :- PreventFragment(b, o, f, k); Prevent(b, o1, r)
    case _ => Prevent(b, o, frags.rest)
  }

  // ----- The whole -----

  /** overlay_merge: frags is what is left of the overlay's root. */
  function MergeAll(b: Forest, frags: Forest): Res<Forest>
    decreases frags
  {
    match frags
    case Nil => Ok(b)
    case SubF(f, k, r) =>
      if !HasSub(k, OVERLAY) then MergeAll(b, r) else
        var t :- Target(b, k);
        if NodeAt(b, t).None? then Err(-INTERNAL) else
          MergeAll(PutAt(b, t, Apply(NodeAt(b, t).value, SubBody(k, OVERLAY))), r)
    case _ => MergeAll(b, frags.rest)
  }

  /** The overlay with its phandles shifted and its references into the base resolved. */
  function Resolved(b: Forest, o: Forest): Res<Forest> {
    var delta := MaxPhandle(b);
    var o1 :- Shift(o, delta);
    var o2 :- RewriteLocal(o1, Adding(delta));
    Fixups(b, o2)
  }

  /** The overlay as it is when it is merged. */
  function Prepare(b: Forest, o: Forest): Res<Forest> {
    var o3 :- Resolved(b, o);
    Prevent(b, o3, o3)
  }

  /** fdt_overlay_apply up to the update of the base's symbols. */
  function OverlayApply(b: Forest, o: Forest): Res<Forest> {
    var o' :- Prepare(b, o);
    MergeAll(b, o')
  }
}
