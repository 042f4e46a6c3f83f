/**
 * Flattening an unflattened tree (libs/libufdt/ufdt_convert.c): the strings blocks of all blobs the tree was made of,
 * in reversed order at the end of the buffer, then the nodes, properties first, through the sequential writer.
 */
module UfdtOut {
  import opened Bytes
  import opened Tree
  import opened Encoding
  import opened Positions
  import opened Tags
  import opened SwFormat
  import opened FdtSw
  import opened UfdtNames
  import opened UfdtHeap
  import Programs
  import UfdtLife
  import UfdtSizes
  import Dict = PropDicts

  // ----- The strings -----

  /** _ufdt_output_strtab_to_fdt: all strings blocks, the last in front, or no room for them. */
  method OutputStrtab(w: Writer, tables: seq<Table>) returns (err: int)
    requires w.Valid() && w.offStrings == w.totalsize && w.toks == [] && w.sizeStrings == 0
    modifies w`sizeStrings, w`bytes, w.mem
    ensures w.Valid()
    ensures err == if TotalText(tables) <= w.totalsize - w.offStruct - w.sizeStruct then 0 else -1
    ensures err == 0 ==> w.Strs() == Reversed(tables)
  {
    hide RsvBytes, AllRsv, Block, SwRepAll, Overwrite, Reversed, TotalText;
    NoTables(tables);
    var structTop := w.base + w.offStruct + w.sizeStruct;
    var dest, destSize, i := w.base + w.totalsize, 0, 0;
    ghost var rest, b := w.RsvBlock(), w.Struct();
    NoBytes(w.sizeStrings, w.Strs(), b, w.toks);
    assert tables[..0] == [] && Block(w.bytes, dest, 0) == [];
    while i < |tables|
      invariant 0 <= i <= |tables| && destSize == TotalText(tables[..i]) && dest == w.base + w.totalsize - destSize
                && structTop <= dest
      invariant w.sizeStrings == 0 && w.mem[..] == w.bytes && w.Layout() && w.RsvBlock() == rest
                && w.Struct() == b == []
      invariant Block(w.bytes, dest, destSize) == Reversed(tables[..i])
    {
      var text := tables[i].text;
      TotalMore(tables, i);
      ReversedMore(tables, i);
      if |text| == 0 {
        i := i + 1;
        continue;
      }
      if dest - |text| < structTop {
        Sums(tables, i);
        NoTags(0, w.Strs(), w.Struct(), w.toks);
        return -1;
      }
      ghost var m := w.bytes;
      w.Poke(dest - |text|, text);
      NewString(m, w.bytes, w.base + HEADER_SIZE, w.base + w.offStruct, w.sizeStruct, w.base + w.totalsize, destSize,
        text);
      dest := dest - |text|;
      destSize := destSize + |text|;
      i := i + 1;
    }
    assert tables[..i] == tables;
    w.sizeStrings := destSize;
    NoTags(destSize, w.Strs(), w.Struct(), w.toks);
    err := 0;
  }

  lemma NoTables(tables: seq<Table>)
    ensures TotalText(tables[..0]) == 0 && Reversed(tables[..0]) == []
  {
  }

  lemma NoBytes(n: nat, strs: Str, b: Str, ts: seq<Tok>)
    requires |strs| == n && n < U32 && ts == [] && SwRepAll(strs, b, ts)
    ensures b == []
  {
  }

  lemma NoTags(n: nat, strs: Str, b: Str, ts: seq<Tok>)
    requires |strs| == n && n < U32 && ts == [] && b == []
    ensures SwRepAll(strs, b, ts)
  {
  }

  lemma Sums(tables: seq<Table>, i: nat)
    requires i < |tables|
    ensures TotalText(tables[..i + 1]) <= TotalText(tables)
  {
    TotalSplit(tables[..i + 1], tables[i + 1..]);
    assert tables[..i + 1] + tables[i + 1..] == tables;
  }

  lemma ReversedMore(tables: seq<Table>, i: nat)
    requires i < |tables|
    ensures Reversed(tables[..i + 1]) == tables[i].text + Reversed(tables[..i])
  {
    TotalSplit(tables[..i], [tables[i]]);
    assert tables[..i] + [tables[i]] == tables[..i + 1];
    assert Reversed([tables[i]]) == Reversed([tables[i]][1..]) + tables[i].text && [tables[i]][1..] == [];
  }

  // ----- Property names that have been written already -----

  /** A property called n is at offset at of the structure block that ts is written as. */
  ghost predicate WrittenAt(ts: seq<Tok>, n: Str, at: nat) {
    ts != [] && if at == 0 then ts[0].Prop? && ts[0].pname == n
      else at >= TokSize(ts[0]) && WrittenAt(ts[1..], n, at - TokSize(ts[0]))
  }

  lemma {:induction false} WrittenMore(ts: seq<Tok>, us: seq<Tok>, n: Str, at: nat)
    requires WrittenAt(ts, n, at)
    ensures WrittenAt(ts + us, n, at)
  {
    assert (ts + us)[0] == ts[0] && (ts + us)[1..] == ts[1..] + us;
    if at != 0 {
      WrittenMore(ts[1..], us, n, at - TokSize(ts[0]));
    }
  }

  lemma {:induction false} LastFound(ts: seq<Tok>, n: Str, d: Str)
    ensures WrittenAt(ts + [Prop(n, d)], n, Size(ts))
  {
    if ts != [] {
      assert (ts + [Prop(n, d)])[0] == ts[0] && (ts + [Prop(n, d)])[1..] == ts[1..] + [Prop(n, d)];
      LastFound(ts[1..], n, d);
    }
  }

  /** The cell c at the name offset of that property counts back from the end of the strings to its name. */
  lemma {:induction false} WrittenName(strs: Str, b: Str, ts: seq<Tok>, n: Str, at: nat)
    requires |strs| <= INT_MAX && SwRepAll(strs, b, ts) && WrittenAt(ts, n, at)
    ensures at + 12 <= |b|
    ensures var c := Get32(b, at + 8); U32 - |strs| <= c && IsStringAt(strs, |strs| - (U32 - c), n)
  {
    hide SwReps, IsStringAt, Get32, TokSize;
    var k := TokSize(ts[0]);
    if at == 0 {
      NameCell(strs, b[..k], n, ts[0].data);
      SameCell(b, 0, k, 8);
    } else {
      WrittenName(strs, b[k..], ts[1..], n, at - k);
      SameCell(b, k, |b|, at - k + 8);
    }
  }

  lemma SameCell(b: Str, lo: nat, hi: nat, i: nat)
    requires lo + i + 4 <= hi <= |b|
    ensures Get32(b[lo..hi], i) == Get32(b, lo + i)
    ensures lo == 0 ==> b[lo..hi] == b[..hi]
    ensures hi == |b| ==> b[lo..hi] == b[lo..]
  {
    Get32Slice(b, lo, hi, i);
  }

  lemma NameCell(strs: Str, b: Str, n: Str, d: Str)
    requires |strs| <= INT_MAX && SwReps(strs, b, Prop(n, d)) && |b| == TokSize(Prop(n, d))
    ensures 12 <= |b| && var c := Get32(b, 8); U32 - |strs| <= c && IsStringAt(strs, |strs| - (U32 - c), n)
  {
    Relocated(b, |strs|);
  }

  /** Every property that the dictionary knows has been written, under its name. */
  ghost predicate DictOk(m: map<Str, Dict.Prop>, ts: seq<Tok>) {
    forall n | n in m :: WrittenAt(ts, n, m[n].at)
  }

  lemma DictMore(m: map<Str, Dict.Prop>, ts: seq<Tok>, us: seq<Tok>)
    requires DictOk(m, ts)
    ensures DictOk(m, ts + us)
  {
    forall n | n in m
      ensures WrittenAt(ts + us, n, m[n].at)
    {
      WrittenMore(ts, us, n, m[n].at);
    }
  }

  lemma DictAdded(m: map<Str, Dict.Prop>, ts: seq<Tok>, n: Str, d: Str)
    requires DictOk(m, ts)
    ensures DictOk(m[n := Dict.Prop(Some(n), Size(ts))], ts + [Prop(n, d)])
  {
    DictMore(m, ts, [Prop(n, d)]);
    LastFound(ts, n, d);
  }

  // ----- The writer between two nodes -----

  /** All is as it should be: the strings are in place, and the dictionary knows properties that have been written. */
  ghost predicate CanWrite(w: Writer, dict: Dict.PropDict, tables: seq<Table>)
    reads w, w.mem, dict, dict.slots
  {
    w.Valid() && w.offStrings == w.totalsize && w.Strs() == Reversed(tables) && dict.Valid()
      && DictOk(dict.Map(), w.toks)
  }

  /** A property has been stored over the strings: there was no room for it. */
  predicate Spilled(w: Writer)
    reads w
  {
    w.offStruct + w.sizeStruct + w.sizeStrings > w.totalsize
  }

  ghost predicate Writing(w: Writer, dict: Dict.PropDict, tables: seq<Table>)
    reads w, w.mem, dict, dict.slots
  {
    if Spilled(w) then w.mem[..] == w.bytes && w.base + w.totalsize <= |w.bytes|
      && w.offStruct + w.sizeStruct <= w.totalsize && dict.Valid()
    else CanWrite(w, dict, tables)
  }

  /** A 32-bit cell read as an int. */
  function AsInt(c: nat): int
    requires c < U32
  {
    if c > INT_MAX then c - U32 else c
  }

  /** _ufdt_get_property_nameoff: a negative offset at which the name is, counted from the end of the strings. */
  method GetPropertyNameoff(w: Writer, dict: Dict.PropDict, tables: seq<Table>, name: Str, at: nat) returns (r: int)
    requires CanWrite(w, dict, tables) && PointsTo(tables, at, name)
    ensures r < 0 <= w.sizeStrings + r && IsStringAt(w.Strs(), w.sizeStrings + r, name)
  {
    hide PointsTo, StringOff, IsStringAt, RsvBytes, AllRsv, Block, SwRepAll, WrittenAt;
    var p := dict.Find(name);
    if p.Some? {
      WrittenName(w.Strs(), w.Struct(), w.toks, name, p.value.at);
      CellInBlock(w.bytes, w.base + w.offStruct, w.sizeStruct, p.value.at + 8);
      r := AsInt(Get32(w.mem[..], w.base + w.offStruct + p.value.at + 8));
    } else {
      OffSelects(tables, at, name);
      r := GetStringOff(tables, at);
      if r == 0 {
        return 0;
      }
    }
  }

  /** There is room for n bytes more in front of the strings. */
  predicate Fits(w: Writer, n: nat)
    reads w
  {
    w.offStruct + w.sizeStruct + w.sizeStrings + n <= w.totalsize
  }

  /** A property stored where it does not fit: over the strings. */
  method SpillProperty(w: Writer, nameoff: int, data: Str, size: nat)
    requires w.mem[..] == w.bytes && w.base + w.totalsize <= |w.bytes|
             && w.offStruct + w.sizeStruct + size <= w.totalsize
    requires size == 12 + Align4(|data|) && |data| < INT_MAX
    modifies w`sizeStruct, w`bytes, w.mem
    ensures w.mem[..] == w.bytes && w.sizeStruct == old(w.sizeStruct) + size
  {
    hide Overwrite, Put32;
    var at := w.base + w.offStruct + w.sizeStruct;
    w.sizeStruct := w.sizeStruct + size;
    w.Poke(at, Put32(PROP) + Put32(|data|) + Put32(nameoff % U32));
    w.Poke(at + 12, data);
  }

  /** A property stored where it fits, and made known to the dictionary. */
  method StoreProperty(w: Writer, dict: Dict.PropDict, tables: seq<Table>, name: Str, nameoff: int, data: Str)
    requires CanWrite(w, dict, tables) && Fits(w, TokSize(Prop(name, data))) && |data| < INT_MAX
    requires nameoff < 0 <= w.sizeStrings + nameoff && IsStringAt(w.Strs(), w.sizeStrings + nameoff, name)
    modifies w`sizeStruct, w`bytes, w`toks, w.mem, dict, dict.slots
    ensures dict.slots == old(dict.slots) || fresh(dict.slots)
    ensures CanWrite(w, dict, tables) && w.toks == old(w.toks) + [Prop(name, data)]
            && w.sizeStruct == old(w.sizeStruct) + TokSize(Prop(name, data))
  {
    hide IsStringAt, RsvBytes, AllRsv, Block, SwRepAll, DictOk, Reversed, Align4, Size;
    ghost var ts, m := w.toks, dict.Map();
    var newPropoff := w.sizeStruct;
    StructIs(w.Strs(), w.sizeStrings, w.Struct(), ts);
    var valp := w.EmitProperty(name, |data|, -nameoff);
    w.Fill(valp.value, name, data, ts);
    DictAdded(m, ts, name, data);
    var ok := dict.Add(Dict.Prop(Some(name), newPropoff));
  }

  /**
   * _ufdt_output_property_to_fdt.  It checks for the end of the buffer only; a property that reaches into the strings
   * is stored all the same, and what the dictionary then finds of the names there is anything.
   */
  method OutputProperty(w: Writer, dict: Dict.PropDict, tables: seq<Table>, name: Str, at: nat, data: Str)
      returns (err: int)
    requires Writing(w, dict, tables) && PointsTo(tables, at, name) && |data| < INT_MAX
    modifies w`sizeStruct, w`bytes, w`toks, w.mem, dict, dict.slots
    ensures (dict.slots == old(dict.slots) || fresh(dict.slots)) && (err == 0 || err == -1)
    ensures err == 0 ==> Writing(w, dict, tables)
    ensures old(Fits(w, TokSize(Prop(name, data)))) ==>
              err == 0 && !Spilled(w) && w.toks == old(w.toks) + [Prop(name, data)]
                && w.sizeStruct == old(w.sizeStruct) + TokSize(Prop(name, data))
    ensures !old(Fits(w, TokSize(Prop(name, data)))) ==> err != 0 || Spilled(w)
  {
    hide PointsTo, IsStringAt, RsvBytes, AllRsv, Block, SwRepAll, DictOk, Reversed, Align4, Size, SwReps;
    var nameoff: int;
    if Spilled(w) {
      nameoff := *;
    } else {
      nameoff := GetPropertyNameoff(w, dict, tables, name, at);
    }
    if nameoff == 0 {
      return -1;
    }
    var newPropoff, newPropSize := w.sizeStruct, 12 + Align4(|data|);
    if w.totalsize - (w.offStruct + newPropoff) < newPropSize {
      return -1;
    }
    if w.offStruct + newPropoff + newPropSize + w.sizeStrings <= w.totalsize {
      StoreProperty(w, dict, tables, name, nameoff, data);
    } else {
      SpillProperty(w, nameoff, data, newPropSize);
    }
    err := 0;
  }

  lemma StructIs(strs: Str, n: nat, b: Str, ts: seq<Tok>)
    requires |strs| == n && n < U32 && SwRepAll(strs, b, ts)
    ensures |b| == Size(ts)
  {
  }

  // ----- The nodes -----

  /** The bytes that a node takes when it is written. */
  function NodeSize(name: Str, f: Forest): (n: nat) {
    TokSize(Begin(name)) + FSize(Ufdt.PropsOf(f)) + FSize(Ufdt.EmitSubs(f)) + 4
  }

  function NodeToks(name: Str, f: Forest): seq<Tok> {
    [Begin(name)] + Flat(Ufdt.PropsOf(f)) + Flat(Ufdt.EmitSubs(f)) + [EndNode]
  }

  lemma {:induction false} FlatAppend(f: Forest, g: Forest)
    ensures Flat(Ufdt.Append(f, g)) == Flat(f) + Flat(g)
  {
    hide FSize, TokSize;
    if f.Nil? {
      assert [] + Flat(g) == Flat(g);
    } else {
      FlatAppend(f.rest, g);
      var x := match f { case NopF(_) => [Nop] case PropF(n, d, _) => [Prop(n, d)] case SubF(n, b, _) => [Begin(n)]
        + Flat(b) + [EndNode] };
      Together(x, Flat(f.rest), Flat(g));
    }
  }

  lemma Together<T>(a: seq<T>, b: seq<T>, c: seq<T>)
    ensures a + (b + c) == a + b + c
  {
  }

  /** A node as it is written: its properties, then its subnodes. */
  lemma NodeWritten(name: Str, f: Forest)
    ensures NodeToks(name, f) == [Begin(name)] + Flat(Ufdt.Emit(f)) + [EndNode]
    ensures NodeSize(name, f) == TokSize(Begin(name)) + FSize(Ufdt.Emit(f)) + 4
    ensures Flat(SubF(name, Ufdt.Emit(f), Nil)) == NodeToks(name, f)
            && FSize(SubF(name, Ufdt.Emit(f), Nil)) == NodeSize(name, f)
  {
    hide Ufdt.PropsOf, Ufdt.EmitSubs, Ufdt.Append, TokSize;
    var p, q := Ufdt.PropsOf(f), Ufdt.EmitSubs(f);
    FlatAppend(p, q);
    UfdtSizes.AppendSize(p, q);
    Associate([Begin(name)], Flat(p), Flat(q), [EndNode]);
    SubFlat(name, Ufdt.Append(p, q));
  }

  lemma SubFlat(name: Str, f: Forest)
    ensures Flat(SubF(name, f, Nil)) == [Begin(name)] + Flat(f) + [EndNode]
            && FSize(SubF(name, f, Nil)) == TokSize(Begin(name)) + FSize(f) + 4
  {
    assert Flat(Forest.Nil) == [] && [Begin(name)] + Flat(f) + [EndNode] + [] == [Begin(name)] + Flat(f) + [EndNode];
  }

  lemma PropsStep(g: Shape, ts: seq<Tok>)
    requires g != GNil
    ensures var f, r := Erase(g), Erase(g.rest);
            && FSize(Ufdt.PropsOf(f)) == FSize(Ufdt.PropsOf(r))
               + (if g.GProp? then TokSize(Prop(g.name, g.data)) else 0)
            && ts + Flat(Ufdt.PropsOf(f)) ==
               (if g.GProp? then ts + [Prop(g.name, g.data)] else ts) + Flat(Ufdt.PropsOf(r))
  {
    if g.GProp? {
      var r := Flat(Ufdt.PropsOf(Erase(g.rest)));
      assert ts + ([Prop(g.name, g.data)] + r) == ts + [Prop(g.name, g.data)] + r;
    }
  }

  lemma SubsStep(g: Shape, ts: seq<Tok>)
    requires g != GNil
    ensures var f, r := Erase(g), Erase(g.rest);
            && FSize(Ufdt.EmitSubs(f)) == FSize(Ufdt.EmitSubs(r))
               + (if g.GSub? then NodeSize(g.name, Erase(g.body)) else 0)
            && ts + Flat(Ufdt.EmitSubs(f)) ==
               (if g.GSub? then ts + NodeToks(g.name, Erase(g.body)) else ts) + Flat(Ufdt.EmitSubs(r))
  {
    if g.GSub? {
      NodeWritten(g.name, Erase(g.body));
      var r := Flat(Ufdt.EmitSubs(Erase(g.rest)));
      assert ts + (NodeToks(g.name, Erase(g.body)) + r) == ts + NodeToks(g.name, Erase(g.body)) + r;
    }
  }

  /** for_each_prop: the properties among the siblings from first on. */
  method OutputProps(w: Writer, dict: Dict.PropDict, tables: seq<Table>, h: Heap, first: Option<NodePools.Ptr>,
      ghost k: Shape) returns (err: int)
    requires Writing(w, dict, tables) && Rep(h, first, k) && Good(tables, h)
    modifies w`sizeStruct, w`bytes, w`toks, w.mem, dict, dict.slots
    ensures (dict.slots == old(dict.slots) || fresh(dict.slots)) && (err == 0 || err == -1)
    ensures err == 0 ==> Writing(w, dict, tables)
    ensures var n := FSize(Ufdt.PropsOf(Erase(k)));
            if old(Fits(w, n)) then err == 0 && !Spilled(w) && w.toks == old(w.toks) + Flat(Ufdt.PropsOf(Erase(k)))
              && w.sizeStruct == old(w.sizeStruct) + n
            else err != 0 || Spilled(w)
  {
    hide Writing, PointsTo, Flat, FSize, Erase, Ufdt.PropsOf, TokSize;
    var it := first;
    ghost var r, all, total := k, old(w.toks) + Flat(Ufdt.PropsOf(Erase(k))),
      old(w.sizeStruct) + FSize(Ufdt.PropsOf(Erase(k)));
    while it.Some?
      invariant Rep(h, it, r) && Writing(w, dict, tables) && (dict.slots == old(dict.slots) || fresh(dict.slots))
      invariant Spilled(w) || (w.toks + Flat(Ufdt.PropsOf(Erase(r))) == all
                && w.sizeStruct + FSize(Ufdt.PropsOf(Erase(r))) == total)
      invariant old(Fits(w, FSize(Ufdt.PropsOf(Erase(k))))) ==> !Spilled(w)
      decreases r
    {
      PropsStep(r, w.toks);
      GoodHere(tables, h, it, r);
      if h[it.value].PropNode? {
        err := OutputProperty(w, dict, tables, h[it.value].name, h[it.value].at, h[it.value].data);
        if err < 0 {
          return -1;
        }
      }
      it := h[it.value].sibling;
      r := r.rest;
    }
    PropsEnd(w.toks);
    err := 0;
  }

  lemma PropsEnd(ts: seq<Tok>)
    ensures ts + Flat(Ufdt.PropsOf(Erase(GNil))) == ts && FSize(Ufdt.PropsOf(Erase(GNil))) == 0
    ensures ts + Flat(Ufdt.EmitSubs(Erase(GNil))) == ts && FSize(Ufdt.EmitSubs(Erase(GNil))) == 0
  {
  }

  lemma GoodHere(tables: seq<Table>, h: Heap, it: Option<NodePools.Ptr>, r: Shape)
    requires Good(tables, h) && it.Some? && Rep(h, it, r)
    ensures r != GNil && it.value in h && h[it.value].PropNode? == r.GProp? && h[it.value].name == r.name
            && Rep(h, h[it.value].sibling, r.rest)
    ensures r.GProp? ==> h[it.value].data == r.data && PointsTo(tables, h[it.value].at, r.name) && |r.data| < INT_MAX
    ensures r.GSub? ==> 0 !in r.name && Rep(h, h[it.value].child, r.body)
  {
    hide PointsTo;
    assert GoodNode(tables, h[it.value]);
  }

  /** for_each_node: the subnodes among the siblings from first on. */
  method OutputSubs(w: Writer, dict: Dict.PropDict, tables: seq<Table>, h: Heap, first: Option<NodePools.Ptr>,
      ghost k: Shape) returns (err: int)
    requires Writing(w, dict, tables) && Rep(h, first, k) && Good(tables, h)
    modifies w`sizeStruct, w`bytes, w`toks, w.mem, dict, dict.slots
    ensures (dict.slots == old(dict.slots) || fresh(dict.slots)) && (err == 0 || err == -1)
    ensures err == 0 ==> Writing(w, dict, tables)
    ensures var n := FSize(Ufdt.EmitSubs(Erase(k)));
            if old(Fits(w, n)) then err == 0 && !Spilled(w) && w.toks == old(w.toks) + Flat(Ufdt.EmitSubs(Erase(k)))
              && w.sizeStruct == old(w.sizeStruct) + n
            else err != 0 || Spilled(w)
    decreases UfdtLife.GSize(k), 0
  {
    hide Writing, PointsTo, Flat, FSize, Erase, Ufdt.EmitSubs, TokSize, NodeSize, NodeToks;
    var it := first;
    ghost var r, all, total := k, old(w.toks) + Flat(Ufdt.EmitSubs(Erase(k))),
      old(w.sizeStruct) + FSize(Ufdt.EmitSubs(Erase(k)));
    while it.Some?
      invariant Rep(h, it, r) && Writing(w, dict, tables) && (dict.slots == old(dict.slots) || fresh(dict.slots))
      invariant Spilled(w) || (w.toks + Flat(Ufdt.EmitSubs(Erase(r))) == all
                && w.sizeStruct + FSize(Ufdt.EmitSubs(Erase(r))) == total)
      invariant old(Fits(w, FSize(Ufdt.EmitSubs(Erase(k))))) ==> !Spilled(w)
      invariant UfdtLife.GSize(r) <= UfdtLife.GSize(k)
      decreases r
    {
      SubsStep(r, w.toks);
      GoodHere(tables, h, it, r);
      if h[it.value].SubNode? {
        err := OutputNode(w, dict, tables, h, it.value, r.body);
        if err < 0 {
          return -1;
        }
      }
      it := h[it.value].sibling;
      r := r.rest;
    }
    PropsEnd(w.toks);
    err := 0;
  }

  /** _ufdt_output_node_to_fdt of a node: it succeeds exactly if the node fits in front of the strings. */
  method OutputNode(w: Writer, dict: Dict.PropDict, tables: seq<Table>, h: Heap, node: NodePools.Ptr, ghost k: Shape)
      returns (err: int)
    requires Writing(w, dict, tables) && node in h && h[node].SubNode? && 0 !in h[node].name && Rep(h, h[node].child, k)
             && Good(tables, h)
    modifies w`sizeStruct, w`bytes, w`toks, w.mem, dict, dict.slots
    ensures (dict.slots == old(dict.slots) || fresh(dict.slots)) && (err == 0 || err == -1)
    ensures err == 0 <==> old(Fits(w, NodeSize(h[node].name, Erase(k))))
    ensures err == 0 ==> Writing(w, dict, tables) && !Spilled(w)
                         && w.toks == old(w.toks) + NodeToks(h[node].name, Erase(k))
                         && w.sizeStruct == old(w.sizeStruct) + NodeSize(h[node].name, Erase(k))
    decreases UfdtLife.GSize(k), 1
  {
    hide PointsTo, Flat, FSize, Erase, Ufdt.PropsOf, Ufdt.EmitSubs, TokSize, CanWrite;
    err := BeginIfRoom(w, dict, tables, h[node].name);
    if err < 0 {
      return -1;
    }
    err := OutputProps(w, dict, tables, h, h[node].child, k);
    if err < 0 {
      return -1;
    }
    err := OutputSubs(w, dict, tables, h, h[node].child, k);
    if err < 0 {
      return -1;
    }
    err := EndIfRoom(w, dict, tables);
  }

  /** fdt_begin_node, which fails if there is no room in front of the strings. */
  method BeginIfRoom(w: Writer, dict: Dict.PropDict, tables: seq<Table>, name: Str) returns (err: int)
    requires Writing(w, dict, tables) && 0 !in name
    modifies w`sizeStruct, w`bytes, w`toks, w.mem
    ensures err == if old(Fits(w, TokSize(Begin(name)))) then 0 else -1
    ensures err == 0 ==> Writing(w, dict, tables) && !Spilled(w) && w.toks == old(w.toks) + [Begin(name)]
                         && w.sizeStruct == old(w.sizeStruct) + TokSize(Begin(name))
  {
    hide RsvBytes, AllRsv, Block, SwRepAll, DictOk, Reversed, TokSize;
    if Spilled(w) {
      return -1;
    }
    DictMore(dict.Map(), w.toks, [Begin(name)]);
    err := w.BeginNode(name);
    if err < 0 {
      return -1;
    }
  }

  method EndIfRoom(w: Writer, dict: Dict.PropDict, tables: seq<Table>) returns (err: int)
    requires Writing(w, dict, tables)
    modifies w`sizeStruct, w`bytes, w`toks, w.mem
    ensures err == if old(Fits(w, 4)) then 0 else -1
    ensures err == 0 ==> Writing(w, dict, tables) && !Spilled(w) && w.toks == old(w.toks) + [EndNode]
                         && w.sizeStruct == old(w.sizeStruct) + 4
  {
    hide RsvBytes, AllRsv, Block, SwRepAll, DictOk, Reversed;
    if Spilled(w) {
      return -1;
    }
    DictMore(dict.Map(), w.toks, [EndNode]);
    err := w.EndNode();
    if err < 0 {
      return -1;
    }
  }

  // ----- The whole -----

  /** The first n entries of a memory reservation block. */
  function Entries(b: Str, n: nat): (rs: seq<Rsv>)
    requires 16 * n <= |b|
    ensures |rs| == n
  {
    if n == 0 then [] else Entries(b, n - 1) + [Programs.MemRsv(b, n - 1)]
  }

  /** n is what fdt_num_mem_rsv counts in the block, or 0 if the block does not end. */
  ghost predicate Reserved(b: Str, n: nat) {
    && (forall i: nat | i < n :: 16 * i + 16 <= |b| && Programs.MemRsv(b, i).size != 0)
    && if 16 * n + 16 <= |b| && Programs.MemRsv(b, n).size == 0 then true
       else n == 0 && forall i: nat | 16 * i + 16 <= |b| :: Programs.MemRsv(b, i).size != 0
  }

  lemma EntryIsRsv(b: Str, i: nat)
    requires 16 * i + 16 <= |b|
    ensures IsRsv(Programs.MemRsv(b, i))
  {
  }

  lemma ReservedOf(b: Str) returns (n: nat)
    ensures Reserved(b, n) && 16 * n <= |b|
  {
    hide Programs.Get64;
    n := 0;
    while 16 * n + 16 <= |b| && Programs.Get64(b, 16 * n + 8) != 0
      invariant 16 * n <= |b| && forall i: nat | i < n :: 16 * i + 16 <= |b| && Programs.MemRsv(b, i).size != 0
      decreases |b| - 16 * n
    {
      n := n + 1;
    }
    if 16 * n + 16 > |b| {
      n := 0;
    }
  }

  /** The reserve entries of the first blob, copied; fdt_finish_reservemap notices if they did not all fit. */
  method OutputReserve(w: Writer, rsvmap: Str) returns (err: int, ghost n: nat)
    requires w.Valid() && w.rsv == [] && w.toks == [] && w.offStrings == 0
    modifies w`offStruct, w`offStrings, w`bytes, w`rsv, w.mem
    ensures w.Valid() && Reserved(rsvmap, n) && 16 * n <= |rsvmap|
    ensures err == if HEADER_SIZE + 16 * (n + 1) <= w.totalsize then 0 else -NOSPACE
    ensures err == 0 ==> w.rsv == Entries(rsvmap, n) + [Rsv(0, 0)] && w.offStrings == w.totalsize
                         && w.offStruct == HEADER_SIZE + 16 * (n + 1)
  {
    hide RsvBytes, Block, SwRepAll, IsRsv, Programs.MemRsv;
    var num := Programs.NumMemRsv(rsvmap);
    n := if num < 0 then 0 else num;
    var i := 0;
    RsvBlockSize(w);
    while i < num
      invariant 0 <= i <= n && w.Valid() && w.toks == [] && w.offStrings == 0
                && w.offStruct == HEADER_SIZE + 16 * |w.rsv| && 16 * n <= |rsvmap|
      invariant |w.rsv| <= i && (w.rsv == Entries(rsvmap, i) || w.offStruct + 16 > w.totalsize)
    {
      EntryIsRsv(rsvmap, i);
      var ignored := w.AddReservemapEntry(Programs.MemRsv(rsvmap, i));
      i := i + 1;
    }
    err := w.FinishReservemap();
    RsvBlockSize(w);
  }

  lemma RsvBlockSize(w: Writer)
    requires w.Valid()
    ensures w.offStruct == HEADER_SIZE + 16 * |w.rsv|
  {
  }

  /** The bytes of a blob with n reserve entries, the node and the strings blocks. */
  function BlobSize(n: nat, name: Str, f: Forest, tables: seq<Table>): nat {
    HEADER_SIZE + 16 * (n + 1) + NodeSize(name, f) + 4 + TotalText(tables)
  }

  /** The finished blob in the buffer, for the read-only functions. */
  ghost function Finished(w: Writer): (v: Fdt)
    reads w, w.mem
    requires w.mem[..] == w.bytes && w.base + w.offStruct + w.sizeStruct <= |w.bytes|
             && w.base + w.offStrings + w.sizeStrings <= |w.bytes|
  {
    Fdt(Block(w.bytes, w.base + w.offStruct, w.sizeStruct), Block(w.bytes, w.base + w.offStrings, w.sizeStrings))
  }

  /** fdt_open_into on a blob whose blocks are in order: it takes up the whole buffer. */
  method OpenInto(w: Writer, bufSize: int) returns (err: int)
    requires w.Layout() && w.finished && w.base + bufSize <= |w.bytes| && w.totalsize <= bufSize <= INT_MAX
    requires w.offStrings == w.offStruct + w.sizeStruct && w.totalsize == w.offStrings + w.sizeStrings
    modifies w`totalsize
    ensures err == 0 && w.totalsize == bufSize && w.Layout()
    ensures Finished(w) == old(Finished(w)) && w.RsvBlock() == old(w.RsvBlock())
  {
    w.totalsize := bufSize;
    err := 0;
  }

  lemma NothingWritten(ts: seq<Tok>)
    ensures DictOk(map[], ts)
  {
  }

  lemma GoodName(tables: seq<Table>, h: Heap, p: NodePools.Ptr)
    requires Good(tables, h) && p in h && h[p].SubNode?
    ensures 0 !in h[p].name
  {
    assert GoodNode(tables, h[p]);
  }

  lemma BlobDecodes(v: Fdt, ts: seq<Tok>, name: Str, f: Forest)
    requires ts == NodeToks(name, f) && |v.struct| < INT_MAX && RepAll(v.strs, v.struct, ts + [End])
    ensures Encodes(v, SubF(name, Ufdt.Emit(f), Nil))
  {
    hide *;
    NodeWritten(name, f);
    EncodesWhole(v, SubF(name, Ufdt.Emit(f), Nil));
  }

  lemma NothingBefore(ts: seq<Tok>)
    ensures [] + ts == ts
  {
  }

  /** The part of ufdt_to_fdt that writes the strings and the nodes. */
  method WriteTree(w: Writer, h: Heap, node: NodePools.Ptr, tables: seq<Table>, hash: Str -> nat, ghost k: Shape)
      returns (err: int)
    requires w.Valid() && w.offStrings == w.totalsize && w.toks == [] && w.sizeStrings == 0 && Good(tables, h)
    requires node in h && h[node].SubNode? && Rep(h, h[node].child, k)
    modifies w`sizeStrings, w`sizeStruct, w`bytes, w`toks, w.mem
    ensures err == 0 || err == -1
    ensures err == 0 <==> old(Fits(w, NodeSize(h[node].name, Erase(k)) + TotalText(tables)))
    ensures err == 0 ==> w.Valid() && w.toks == NodeToks(h[node].name, Erase(k)) && w.sizeStrings == TotalText(tables)
                         && w.sizeStruct == old(w.sizeStruct) + NodeSize(h[node].name, Erase(k))
  {
    hide RsvBytes, AllRsv, Block, SwRepAll, Reversed, TotalText, NodeSize, NodeToks, Good, Rep, Flat, DictOk;
    err := OutputStrtab(w, tables);
    if err < 0 {
      return -1;
    }
    var dict := new Dict.PropDict(hash);
    NothingWritten(w.toks);
    GoodName(tables, h, node);
    err := OutputNode(w, dict, tables, h, node, k);
    NothingBefore(NodeToks(h[node].name, Erase(k)));
  }

  /** The end of ufdt_to_fdt: the blob is finished, and takes up the whole buffer. */
  method CloseBlob(w: Writer, bufSize: int, ghost name: Str, ghost f: Forest) returns (err: int)
    requires w.Valid() && w.offStrings == w.totalsize == bufSize && w.toks == NodeToks(name, f)
    modifies w, w.mem
    ensures err == if old(Fits(w, 4)) then 0 else -1
    ensures err == 0 ==> w.Layout() && w.finished && w.base == old(w.base) && w.totalsize == bufSize
                         && w.offStrings + w.sizeStrings <= w.totalsize
                         && Encodes(Finished(w), SubF(name, Ufdt.Emit(f), Nil))
    ensures err == 0 ==> AllRsv(w.rsv) && w.rsv == old(w.rsv) && w.RsvBlock() == RsvBytes(w.rsv)
  {
    hide RsvBytes, AllRsv, Block, SwRepAll, Encodes, RepAll, NodeToks;
    ghost var ts := w.toks;
    err := w.Finish();
    if err < 0 {
      return -1;
    }
    BlobDecodes(Finished(w), ts, name, f);
    err := OpenInto(w, bufSize);
  }

  /**
   * ufdt_to_fdt: it succeeds exactly if everything fits, and the blob then decodes to the tree, each node's properties
   * in front of its subnodes, with the reserve entries of the first blob.
   */
  method UfdtToFdt(w: Writer, buf: nat, bufSize: int, h: Heap, root: Option<NodePools.Ptr>, tables: seq<Table>,
      rsvmap: Str, hash: Str -> nat, ghost k: Shape)
    returns (err: int, ghost n: nat)
    requires buf + bufSize <= w.mem.Length && 0 <= bufSize <= INT_MAX && w.mem[..] == w.bytes && Good(tables, h)
    requires root.Some? ==> root.value in h && h[root.value].SubNode? && Rep(h, h[root.value].child, k)
    modifies w, w.mem
    ensures Reserved(rsvmap, n) && 16 * n <= |rsvmap| && (err == 0 || err == -1)
    ensures err == 0 <==> tables != [] && root.Some? && BlobSize(n, h[root.value].name, Erase(k), tables) <= bufSize
    ensures err == 0 ==> w.Layout() && w.finished && w.base == buf && w.totalsize == bufSize
                         && w.offStrings + w.sizeStrings <= w.totalsize
                         && Encodes(Finished(w), SubF(h[root.value].name, Ufdt.Emit(Erase(k)), Nil))
    ensures err == 0 ==> AllRsv(w.rsv) && w.rsv == Entries(rsvmap, n) + [Rsv(0, 0)] && w.RsvBlock() == RsvBytes(w.rsv)
  {
    hide RsvBytes, AllRsv, Block, SwRepAll, Encodes, RepAll, Reversed, TotalText, NodeSize, NodeToks, Good, Rep, Flat,
      Reserved, Entries, DictOk;
    n := ReservedOf(rsvmap);
    if |tables| == 0 || root.None? {
      return -1, n;
    }
    err := w.Create(buf, bufSize, false);
    if err < 0 {
      return -1, n;
    }
    err, n := OutputReserve(w, rsvmap);
    if err < 0 {
      return -1, n;
    }
    err := WriteTree(w, h, root.value, tables, hash, k);
    if err < 0 {
      return -1, n;
    }
    err := CloseBlob(w, bufSize, h[root.value].name, Erase(k));
  }
}
