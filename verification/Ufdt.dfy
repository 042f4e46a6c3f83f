/**
 * Applying an overlay with libufdt (libs/libufdt/ufdt_overlay.c) as functions of unflattened trees: names match
 * exactly, properties and subnodes of a node are one list that grows at its end, and no phandle is exchanged.
 */
module Ufdt {
  import opened Bytes
  import opened Tree
  import opened Encoding
  import opened Positions
  import opened Edits
  import opened Sem
  import opened FixupText
  import opened Overlay
  import opened Refs

  // ----- Nodes -----

  /** The value of the first property called x, wherever it is in the node's list. */
  function UData(b: Forest, x: Str): Option<Str> {
    match b
    case Nil => None
    case PropF(n, d, r) => if n == x then Some(d) else UData(r, x)
    case _ => UData(b.rest, x)
  }

  function UPut(b: Forest, x: Str, d: Str): Forest
    requires UData(b, x).Some?
  {
    match b
    case PropF(n, e, r) => if n == x then PropF(n, d, r) else PropF(n, e, UPut(r, x, d))
    case NopF(r) => NopF(UPut(r, x, d))
    case SubF(n, k, r) => SubF(n, k, UPut(r, x, d))
  }

  function UValueAt(b: Forest, p: Path, x: Str): Option<Str> {
    match NodeAt(b, p)
    case None => None
    case Some(k) => UData(k, x)
  }

  /** No two subnodes and no two properties of a node share a name. */
  ghost predicate UUniq(b: Forest) {
    match b
    case Nil => true
    case NopF(r) => UUniq(r)
    case PropF(n, _, r) => UData(r, n) == None && UUniq(r)
    case SubF(n, k, r) => KidAt(r, n) == None && UUniq(k) && UUniq(r)
  }

  /** ufdt_node_get_phandle. */
  function UPhandle(b: Forest): nat {
    PhandleOf(UData(b, PHANDLE), UData(b, LINUX_PHANDLE))
  }

  /** ufdt_node_add_child. */
  function Append(b: Forest, e: Forest): Forest {
    match b
    case Nil => e
    case PropF(n, d, r) => PropF(n, d, Append(r, e))
    case NopF(r) => NopF(Append(r, e))
    case SubF(n, k, r) => SubF(n, k, Append(r, e))
  }

  function USetProp(a: Forest, n: Str, d: Str): Forest {
    if UData(a, n).Some? then UPut(a, n, d) else Append(a, PropF(n, d, Nil))
  }

  /** merge_children: the children of b, one after the other, merged into those of a or put after them. */
  function UMerge(a: Forest, b: Forest): Forest
    decreases b
  {
    match b
    case Nil => a
    case PropF(n, d, r) => UMerge(USetProp(a, n, d), r)
    case SubF(n, k, r) =>
      (match KidAt(a, n)
       case Some(j) => UMerge(PutKid(a, n, UMerge(j, k)), r)
       case None => UMerge(Append(a, SubF(n, k, Nil)), r))
    case NopF(r) => UMerge(a, r)
  }

  // ----- Phandles -----

  /** ufdt_get_node_by_phandle. */
  function UPhandlePath(b: Forest, v: nat): Option<Path>
    decreases b, 1
  {
    if UPhandle(b) == v then Some([]) else UPhandleBelow(b, v)
  }

  function UPhandleBelow(b: Forest, v: nat): Option<Path>
    decreases b, 0
  {
    match b
    case Nil => None
    case SubF(n, k, r) => (match UPhandlePath(k, v) case Some(p) => Some([n] + p) case None => UPhandleBelow(r, v))
    case _ => UPhandleBelow(b.rest, v)
  }

  /** ufdt_get_max_phandle. */
  function UMaxPhandle(b: Forest): nat
    decreases b, 1
  {
    if UPhandle(b) > UMaxBelow(b) then UPhandle(b) else UMaxBelow(b)
  }

  function UMaxBelow(b: Forest): nat
    decreases b, 0
  {
    match b
    case Nil => 0
    case SubF(_, k, r) => if UMaxPhandle(k) > UMaxBelow(r) then UMaxPhandle(k) else UMaxBelow(r)
    case _ => UMaxBelow(b.rest)
  }

  /** fdt_increase_u32 on property x, if it is one cell. */
  function UIncrease(b: Forest, x: Str, delta: nat): (c: Forest)
    ensures FSize(c) == FSize(b)
  {
    match UData(b, x)
    case None => b
    case Some(d) =>
      if |d| != 4 then b else
        UPutSize(b, x, Put32((Get32(d, 0) + delta) % U32));
        UPut(b, x, Put32((Get32(d, 0) + delta) % U32))
  }

  lemma {:induction false} UPutSize(b: Forest, x: Str, d: Str)
    requires UData(b, x).Some? && |UData(b, x).value| == |d|
    ensures FSize(UPut(b, x, d)) == FSize(b)
  {
    match b
    case PropF(n, _, r) => if n != x { UPutSize(r, x, d); }
    case NopF(r) => UPutSize(r, x, d);
    case SubF(_, _, r) => UPutSize(r, x, d);
  }

  /** ufdt_try_increase_phandle: every node that has a phandle. */
  function UShift(b: Forest, delta: nat): Forest
    decreases FSize(b), 1
  {
    if UPhandle(b) > 0 then
      UShiftSubs(UIncrease(UIncrease(b, PHANDLE, delta), LINUX_PHANDLE, delta), delta)
    else UShiftSubs(b, delta)
  }

  function UShiftSubs(b: Forest, delta: nat): Forest
    decreases FSize(b), 0
  {
    match b
    case Nil => Nil
    case PropF(n, d, r) => PropF(n, d, UShiftSubs(r, delta))
    case NopF(r) => NopF(UShiftSubs(r, delta))
    case SubF(n, k, r) => SubF(n, UShift(k, delta), UShiftSubs(r, delta))
  }

  // ----- Local references -----

  /** ufdt_local_fixup_node. */
  function ULocal(t: Forest, fx: Forest, delta: nat): Res<Forest>
    decreases fx, 1
  {
    var t1 :- ULocalProps(t, fx, delta);
    ULocalSubs(t1, fx, delta)
  }

  /**
   * ufdt_local_fixup_prop: the cells of d whose offsets are listed in l, with delta added. An offset is an int, which
   * becomes unsigned in a sum of 64 bits: one from -4 to -1 can pass the test, and the cell is in front of the value.
   * No value is longer than INT_MAX.
   */
  function UFixCells(d: Str, l: Str, delta: nat): (r: Res<Str>)
    ensures r.Ok? ==> |r.v| == |d|
    decreases |l|
  {
    if |l| < 4 then Ok(d) else
      var i := Get32(l, 0);
      if i + 4 <= |d| then UFixCells(Overwrite(d, i, Put32((Get32(d, i) + delta) % U32)), l[4..], delta)
      else Err(if U32 - 4 <= i && i + 4 - U32 <= |d| then WILD else -1)
  }

  function ULocalProps(t: Forest, fx: Forest, delta: nat): Res<Forest>
    decreases fx, 0
  {
    match fx
    case Nil => Ok(t)
    case PropF(n, l, r) =>
      if |l| % 4 != 0 || UData(t, n).None? then Err(-1) else
        var d :- UFixCells(UData(t, n).value, l, delta);
        ULocalProps(UPut(t, n, d), r, delta)
    case _ => ULocalProps(t, fx.rest, delta)
  }

  function ULocalSubs(t: Forest, fx: Forest, delta: nat): Res<Forest>
    decreases fx, 0
  {
    match fx
    case Nil => Ok(t)
    case SubF(n, k, r) =>
      (match NodeAt(t, Comps(n))
       case None => Err(-1)
       case Some(j) => var j' :- ULocal(j, k, delta); ULocalSubs(PutAt(t, Comps(n), j'), r, delta))
    case _ => ULocalSubs(t, fx.rest, delta)
  }

  // ----- References into the base -----

  /** ufdt_get_node_by_path: an absolute path, or an alias followed by one. */
  function ULookup(b: Forest, s: Str): Option<Path> {
    if s != [] && s[0] == SLASH then (if NodeAt(b, Comps(s)).Some? then Some(Comps(s)) else None) else
      match UValueAt(b, [ALIASES], s[..Word(s)])
      case None => None
      case Some(a) =>
        if |CStr(a)| != |a| - 1 || CStr(a) == [] then None else
          var p := Comps(CStr(a)) + Comps(s[Word(s)..]);
          if NodeAt(b, p).Some? then Some(p) else None
  }

  /** ufdt_get_fixup_location, and the store at that location. */
  function UFixOne(o: Forest, e: Fixup, v: nat): Res<Forest>
    requires v < U32
  {
    match ULookup(o, e.path)
    case None => Err(-1)
    case Some(p) =>
      match UValueAt(o, p, e.prop)
      case None => Err(-1)
      case Some(d) =>
        if e.off + 4 > |d| then Err(-1) else
          Ok(PutAt(o, p, UPut(NodeAt(o, p).value, e.prop, Overwrite(d, e.off, Put32(v)))))
  }

  /** ufdt_do_one_fixup. */
  function UFixEntries(o: Forest, d: Str, v: nat): Res<Forest>
    requires v < U32
    decreases |d|
  {
    if d == [] then Ok(o) else
      var n := Find(d, 0);
      if n == |d| then Err(-1) else
        match UfdtEntry(d[..n])
        case None => Err(-1)
        case Some(e) =>
          var o1 :- UFixOne(o, e, v);
          UFixEntries(o1, d[n + 1..], v)
  }

  lemma {:induction false} UFixEntriesEach(o: Forest, d: Str, v: nat)
    requires v < U32 && (d == [] || d[|d| - 1] == 0) && UfdtEntries(d).Some?
    ensures UFixEntries(o, d, v) == UFixEach(o, UfdtEntries(d).value, v)
    decreases |d|
  {
    hide UFixOne, UfdtEntry;
    if d != [] {
      var n := Find(d, 0);
      var e := UfdtEntry(d[..n]).value;
      var es := UfdtEntries(d[n + 1..]).value;
      assert ([e] + es)[0] == e && ([e] + es)[1..] == es;
      match UFixOne(o, e, v)
      case Err(_) =>
      case Ok(o1) => UFixEntriesEach(o1, d[n + 1..], v);
    }
  }

  /** The entries es, one after the other. */
  function UFixEach(o: Forest, es: seq<Fixup>, v: nat): Res<Forest>
    requires v < U32
    decreases |es|
  {
    if es == [] then Ok(o) else
      var o1 :- UFixOne(o, es[0], v);
      UFixEach(o1, es[1..], v)
  }

  function USymbolPhandle(b: Forest, symbol: Str): (r: Res<nat>)
    ensures r.Ok? ==> r.v < U32
  {
    match UValueAt(b, [SYMBOLS], symbol)
    case None => Err(-1)
    case Some(d) =>
      match ULookup(b, CStr(d))
      case None => Err(-1)
      case Some(p) => if NodeAt(b, p).Some? then Ok(UPhandle(NodeAt(b, p).value)) else Err(-1)
  }

  function UFixLabels(b: Forest, o: Forest, fx: Forest): Res<Forest>
    decreases fx
  {
    match fx
    case Nil => Ok(o)
    case PropF(symbol, d, r) =>
      var v :- USymbolPhandle(b, symbol);
      if d == [] || d[|d| - 1] != 0 then Err(-1) else
        var o1 :- UFixEntries(o, d, v);
        UFixLabels(b, o1, r)
    case _ => UFixLabels(b, o, fx.rest)
  }

  // ----- The whole -----

  /** ufdt_overlay_get_target: b is the base as it was, c as it is now. */
  function UTarget(b: Forest, c: Forest, k: Forest): Res<Path> {
    match UData(k, TARGET)
    case Some(d) =>
      if |d| < 4 then Err(WILD) else
        (match UPhandlePath(b, Get32(d, 0))
         case Some(p) => if Get32(d, 0) == 0 then Err(-1) else Ok(p)
         case None => Err(-1))
    case None =>
      match UData(k, TARGET_PATH)
      case None => Err(-1)
      case Some(d) => match ULookup(c, CStr(d)) case Some(p) => Ok(p) case None => Err(-1)
  }

  /** ufdt_overlay_apply_fragments. */
  function UMergeAll(b: Forest, c: Forest, frags: Forest): Res<Forest>
    decreases frags
  {
    match frags
    case Nil => Ok(c)
    case SubF(_, k, r) =>
      if KidAt(k, OVERLAY).None? then UMergeAll(b, c, r) else
        var t :- UTarget(b, c, k);
        if NodeAt(c, t).None? then Err(-1) else
          UMergeAll(b, PutAt(c, t, UMerge(NodeAt(c, t).value, KidAt(k, OVERLAY).value)), r)
    case _ => UMergeAll(b, c, frags.rest)
  }

  /** ufdt_overlay_apply up to the merge. */
  function UResolved(b: Forest, o: Forest): Res<Forest> {
    var delta := UMaxPhandle(b);
    var o1 := if delta > 0 then UShift(o, delta) else o;
    var o2 :- match KidAt(o1, LOCAL_FIXUPS) { case None => Ok(o1) case Some(fx) => ULocal(o1, fx, delta) };
    match KidAt(o2, FIXUPS)
    case None => Ok(o2)
    case Some(fx) => UFixLabels(b, o2, fx)
  }

  /** ufdt_overlay_apply. */
  function UOverlayApply(b: Forest, o: Forest): Res<Forest> {
    var o3 :- UResolved(b, o);
    UMergeAll(b, b, o3)
  }

  // ----- From and to the flat form -----

  function PropsOf(b: Forest): Forest {
    match b
    case Nil => Nil
    case PropF(n, d, r) => PropF(n, d, PropsOf(r))
    case _ => PropsOf(b.rest)
  }

  /** _ufdt_output_node_to_fdt: the properties of a node, then its subnodes. */
  function Emit(b: Forest): Forest
    decreases b, 1
  {
    Append(PropsOf(b), EmitSubs(b))
  }

  function EmitSubs(b: Forest): Forest
    decreases b, 0
  {
    match b
    case Nil => Nil
    case SubF(n, k, r) => SubF(n, Emit(k), EmitSubs(r))
    case _ => EmitSubs(b.rest)
  }

  /** ufdt_from_fdt leaves out the NOPs, apply_overlay writes the merged tree out again. */
  function UfdtApplyOverlay(b: Forest, o: Forest): Res<Forest> {
    var u :- UOverlayApply(Strip(b), Strip(o));
    Ok(Emit(u))
  }
}
