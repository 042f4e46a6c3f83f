/**
 * What a finished blob holds: the tree that a balanced program of begin, end and property calls describes, and
 * the reserve entries added before it.
 */
module Programs {
  import opened Bytes
  import opened Tree
  import opened Encoding
  import opened Tags
  import opened SwFormat
  import opened FdtSw

  // ----- Balanced programs -----

  /** How many nodes are open after ts. */
  function Level(ts: seq<Tok>): int {
    if ts == [] then 0 else (if ts[0].Begin? then 1 else if ts[0].EndNode? then -1 else 0) + Level(ts[1..])
  }

  /** Every node that is begun is ended, none is ended that is not open, and the end tag is left to fdt_finish. */
  ghost predicate Balanced(ts: seq<Tok>) {
    End !in ts && Level(ts) == 0 && forall k :: 0 <= k <= |ts| ==> Level(ts[..k]) >= 0
  }

  lemma {:induction false} LevelCat(a: seq<Tok>, b: seq<Tok>)
    ensures Level(a + b) == Level(a) + Level(b)
  {
    if a == [] {
      assert a + b == b;
    } else {
      assert (a + b)[1..] == a[1..] + b;
      LevelCat(a[1..], b);
    }
  }

  lemma {:induction false} LevelFlat(f: Forest)
    ensures Level(Flat(f)) == 0 && End !in Flat(f)
  {
    match f
    case Nil =>
    case NopF(r) =>
      LevelFlat(r);
      LevelCat([Nop], Flat(r));
    case PropF(n, d, r) =>
      LevelFlat(r);
      LevelCat([Prop(n, d)], Flat(r));
    case SubF(n, k, r) =>
      LevelFlat(k);
      LevelFlat(r);
      LevelCat([Begin(n)], Flat(k));
      LevelCat([Begin(n)] + Flat(k), [EndNode]);
      LevelCat([Begin(n)] + Flat(k) + [EndNode], Flat(r));
  }

  lemma {:induction false} FlatNeverBelow(f: Forest, k: nat)
    requires k <= |Flat(f)|
    ensures Level(Flat(f)[..k]) >= 0
  {
    if k > 0 {
      match f
      case NopF(r) =>
        FlatNeverBelow(r, k - 1);
        NeverBelowOne(Nop, r, k);
      case PropF(n, d, r) =>
        FlatNeverBelow(r, k - 1);
        NeverBelowOne(Prop(n, d), r, k);
      case SubF(n, b, r) =>
        var x := [Begin(n)] + Flat(b);
        LevelFlat(b);
        LevelCat([Begin(n)], Flat(b));
        if k <= |x| {
          assert Flat(f)[..k] == [Begin(n)] + Flat(b)[..k - 1];
          FlatNeverBelow(b, k - 1);
          LevelCat([Begin(n)], Flat(b)[..k - 1]);
        } else {
          assert Flat(f)[..k] == x + [EndNode] + Flat(r)[..k - |x| - 1];
          FlatNeverBelow(r, k - |x| - 1);
          LevelCat(x, [EndNode]);
          LevelCat(x + [EndNode], Flat(r)[..k - |x| - 1]);
        }
    }
  }

  lemma NeverBelowOne(t: Tok, r: Forest, k: nat)
    requires (t.Nop? || t.Prop?) && 0 < k <= |[t] + Flat(r)| && Level(Flat(r)[..k - 1]) >= 0
    ensures Level(([t] + Flat(r))[..k]) >= 0
  {
    assert ([t] + Flat(r))[..k] == [t] + Flat(r)[..k - 1];
    LevelCat([t], Flat(r)[..k - 1]);
  }

  /** The longest Forest at the start of ts, and what is left. */
  function Parse(ts: seq<Tok>): (r: (Forest, seq<Tok>))
    ensures |r.1| <= |ts|
    decreases |ts|
  {
    if ts == [] then (Nil, ts) else
      match ts[0]
      case Nop => var (f, us) := Parse(ts[1..]); (NopF(f), us)
      case Prop(n, d) => var (f, us) := Parse(ts[1..]); (PropF(n, d, f), us)
      case Begin(n) =>
        var (k, us) := Parse(ts[1..]);
        if us == [] || !us[0].EndNode? then (Nil, ts) else
          var (f, vs) := Parse(us[1..]);
          (SubF(n, k, f), vs)
      case _ => (Nil, ts)
  }

  lemma {:induction false} ParseWhole(ts: seq<Tok>)
    ensures ts == Flat(Parse(ts).0) + Parse(ts).1
    decreases |ts|
  {
    if ts != [] {
      assert ts == [ts[0]] + ts[1..];
      if ts[0].Nop? || ts[0].Prop? {
        ParseWhole(ts[1..]);
      } else if ts[0].Begin? {
        ParseWhole(ts[1..]);
        var (k, us) := Parse(ts[1..]);
        if us != [] && us[0].EndNode? {
          ParseWhole(us[1..]);
          SubWhole(ts[0].name, k, us, Parse(us[1..]).0, Parse(us[1..]).1);
        }
      }
    }
  }

  lemma SubWhole(n: Str, k: Forest, us: seq<Tok>, f: Forest, vs: seq<Tok>)
    requires us != [] && us[0] == EndNode && us[1..] == Flat(f) + vs
    ensures [Begin(n)] + (Flat(k) + us) == Flat(SubF(n, k, f)) + vs
  {
    assert us == [EndNode] + (Flat(f) + vs);
    assert [Begin(n)] + (Flat(k) + ([EndNode] + (Flat(f) + vs))) == [Begin(n)] + Flat(k) + [EndNode] + Flat(f) + vs;
  }

  /** What cannot be parsed starts with a tag that closes a node which is not open, or leaves a node open. */
  lemma {:induction false} ParseStops(ts: seq<Tok>)
    requires End !in ts
    ensures var us := Parse(ts).1; us == [] || us[0].EndNode? || (us[0].Begin? && Level(us) > 0)
    decreases |ts|
  {
    if ts != [] {
      if !ts[0].EndNode? {
        ParseStops(ts[1..]);
      }
      if ts[0].Begin? {
        var (k, us) := Parse(ts[1..]);
        ParseWhole(ts[1..]);
        if us != [] && us[0].EndNode? {
          NoEnd(ts, Flat(k), us);
          ParseStops(us[1..]);
        } else {
          LevelFlat(k);
          LevelCat(Flat(k), us);
          assert us == [] ==> Level(us) == 0;
        }
      }
    }
  }

  lemma NoEnd(ts: seq<Tok>, a: seq<Tok>, us: seq<Tok>)
    requires ts != [] && End !in ts && ts[1..] == a + us && us != []
    ensures End !in us[1..]
  {
    forall i | 0 <= i < |us[1..]|
      ensures us[1..][i] != End
    {
      assert us[1..][i] == ts[1..][|a| + 1 + i] == ts[|a| + 2 + i];
    }
  }

  /** The balanced programs are exactly the flattened trees. */
  lemma BalancedIsTree(ts: seq<Tok>)
    ensures Balanced(ts) <==> ts == Flat(Parse(ts).0)
  {
    var (f, us) := Parse(ts);
    ParseWhole(ts);
    LevelFlat(f);
    if Balanced(ts) {
      ParseStops(ts);
      LevelCat(Flat(f), us);
      if us != [] && us[0].EndNode? {
        assert ts[..|Flat(f)| + 1] == Flat(f) + [EndNode];
        LevelCat(Flat(f), [EndNode]);
      }
      assert us == [];
      assert Flat(f) + [] == Flat(f);
    }
    if ts == Flat(f) {
      forall k | 0 <= k <= |ts|
        ensures Level(ts[..k]) >= 0
      {
        FlatNeverBelow(f, k);
      }
    }
  }

  /** fdt_finish's blob, after a balanced program, decodes to exactly the tree that the program describes. */
  lemma FinishedDecodes(v: Fdt, ts: seq<Tok>, g: Forest)
    requires Balanced(ts) && |v.struct| < INT_MAX && RepAll(v.strs, v.struct, ts + [End])
    ensures Encodes(v, Parse(ts).0) && ts == Flat(Parse(ts).0)
    ensures Encodes(v, g) ==> g == Parse(ts).0
  {
    hide *;
    BalancedIsTree(ts);
    EncodesWhole(v, Parse(ts).0);
    if Encodes(v, g) {
      EncodesUnique(v, g, Parse(ts).0);
    }
  }

  // ----- Programs -----

  /** A call of the writer between fdt_create and fdt_finish. */
  datatype Call =
    | AddReserve(r: Rsv)
    | FinishReserve
    | BeginCall(name: Str)
    | PropertyCall(pname: Str, val: Str)
    | EndCall
    | ResizeCall(buf: nat, bufsize: nat)

  /** What every call asks of its caller; size is the size of the memory. */
  predicate CallOk(c: Call, size: nat) {
    match c
    case AddReserve(r) => IsRsv(r)
    case BeginCall(n) => 0 !in n
    case PropertyCall(n, d) => 0 !in n && |d| < INT_MAX
    case ResizeCall(buf, bufsize) => buf + bufsize <= size && bufsize <= INT_MAX
    case _ => true
  }

  function CallToks(c: Call): seq<Tok> {
    match c
    case BeginCall(n) => [Begin(n)]
    case PropertyCall(n, d) => [Prop(n, d)]
    case EndCall => [EndNode]
    case _ => []
  }

  /** The tags that the calls write. */
  function Toks(cs: seq<Call>): seq<Tok> {
    if cs == [] then [] else
      Toks(cs[..|cs| - 1]) + CallToks(cs[|cs| - 1])
  }

  /** The reserve entries that the calls add. */
  function Adds(cs: seq<Call>): seq<Rsv> {
    if cs == [] then [] else
      Adds(cs[..|cs| - 1]) + if cs[|cs| - 1].AddReserve? then [cs[|cs| - 1].r] else []
  }

  /** The calls cs have been made, all with success. */
  ghost predicate RunSoFar(w: Writer, cs: seq<Call>)
    reads w, w.mem
  {
    w.Valid() && w.toks == Toks(cs) && w.rsv == Adds(cs) + if w.offStrings == 0 then [] else [Rsv(0, 0)]
  }

  lemma OneMoreCall(cs: seq<Call>, c: Call)
    ensures Toks(cs + [c]) == Toks(cs) + CallToks(c)
    ensures Adds(cs + [c]) == if c.AddReserve? then Adds(cs) + [c.r] else Adds(cs)
    ensures Adds(cs) + [] == Adds(cs) && Toks(cs) + [] == Toks(cs)
  {
    assert (cs + [c])[..|cs|] == cs;
  }

  /** One call of a program; a name longer than the buffer, on which the check for room wraps, stops the program. */
  method Do(w: Writer, c: Call, ghost cs: seq<Call>) returns (ok: bool)
    requires RunSoFar(w, cs) && CallOk(c, w.mem.Length)
    modifies w, w.mem
    ensures ok ==> RunSoFar(w, cs + [c])
  {
    hide RsvBytes, AllRsv, Block, SwRepAll, Toks, Adds;
    OneMoreCall(cs, c);
    var err := 0;
    match c {
      case AddReserve(r) => err := w.AddReservemapEntry(r);
      case FinishReserve => err := w.FinishReservemap();
      case BeginCall(n) => err := w.BeginNode(n);
      case PropertyCall(n, d) =>
        var short := w.IsShortEnough(n);
        if !short {
          return false;
        }
        err := w.Property(n, d);
      case EndCall => err := w.EndNode();
      case ResizeCall(buf, bufsize) => err := w.Resize(buf, bufsize);
    }
    ok := err == 0;
  }

  /**
   * A program of writer calls, from fdt_create to fdt_finish, names shared or not, the buffer moved or not in between.
   * If all calls succeed, the blob has exactly the tags and the reserve entries that the calls have written.
   */
  method Run(w: Writer, buf: nat, bufsize: nat, noDedup: bool, cs: seq<Call>) returns (ok: bool)
    requires buf + bufsize <= w.mem.Length && bufsize <= INT_MAX && w.mem[..] == w.bytes
    requires forall c | c in cs :: CallOk(c, w.mem.Length)
    modifies w, w.mem
    ensures ok ==> w.Layout() && w.finished && w.offStrings == w.offStruct + w.sizeStruct
                   && w.totalsize == w.offStrings + w.sizeStrings
    ensures ok ==> RepAll(w.Strs(), w.Struct(), Toks(cs) + [End])
    ensures ok ==> AllRsv(w.rsv) && w.rsv == Adds(cs) + [Rsv(0, 0)] && w.RsvBlock() == RsvBytes(w.rsv)
  {
    hide RsvBytes, AllRsv, Block, SwRepAll, RepAll, Toks, Adds, CallOk;
    var err := w.Create(buf, bufsize, noDedup);
    if err != 0 {
      return false;
    }
    var i := 0;
    NoCalls(w, cs);
    while i < |cs|
      invariant 0 <= i <= |cs| && RunSoFar(w, cs[..i])
    {
      assert cs[i] in cs && cs[..i] + [cs[i]] == cs[..i + 1];
      ok := Do(w, cs[i], cs[..i]);
      if !ok {
        return;
      }
      i := i + 1;
    }
    assert cs[..i] == cs;
    err := w.Finish();
    ok := err == 0;
  }

  lemma NoCalls(w: Writer, cs: seq<Call>)
    requires w.Valid() && w.toks == [] && w.rsv == [] && w.offStrings == 0
    ensures RunSoFar(w, cs[..0])
  {
    assert Adds(cs[..0]) + [] == [];
  }

  // ----- Reserve entries -----

  function Get64(b: Str, i: nat): nat
    requires i + 8 <= |b|
  {
    Get32(b, i) * U32 + Get32(b, i + 4)
  }

  /** fdt_get_mem_rsv. */
  function MemRsv(b: Str, n: nat): Rsv
    requires 16 * n + 16 <= |b|
  {
    Rsv(Get64(b, 16 * n), Get64(b, 16 * n + 8))
  }

  /** n entries come before the first empty one; there is none if n is an error. */
  ghost predicate Counts(b: Str, n: int) {
    if n >= 0 then 16 * n + 16 <= |b| && MemRsv(b, n).size == 0 && forall i: nat | i < n :: MemRsv(b, i).size != 0
    else n == -TRUNCATED && forall i: nat | 16 * i + 16 <= |b| :: MemRsv(b, i).size != 0
  }

  /** fdt_num_mem_rsv, b being the blob from the memory reservation block on. */
  method NumMemRsv(b: Str) returns (n: int)
    ensures Counts(b, n)
  {
    n := 0;
    while 16 * n + 16 <= |b|
      invariant 0 <= n
      invariant forall i: nat | i < n && 16 * i + 16 <= |b| :: MemRsv(b, i).size != 0
      decreases |b| - 16 * n
    {
      if Get64(b, 16 * n + 8) == 0 {
        return;
      }
      n := n + 1;
    }
    n := -TRUNCATED;
  }

  lemma Put64Get(v: nat, w: nat, b: Str, i: nat)
    requires v < U64 && w < U64 && i + 16 <= |b| && b[i..i + 16] == Put64(v) + Put64(w)
    ensures Get64(b, i) == v && Get64(b, i + 8) == w
  {
    var d := Put64(v) + Put64(w);
    assert forall k | 0 <= k < 16 :: b[i + k] == b[i..i + 16][k] == d[k];
    PutGet32(v / U32);
    PutGet32(v % U32);
    PutGet32(w / U32);
    PutGet32(w % U32);
    assert Get32(b, i) == Get32(Put32(v / U32), 0) && Get32(b, i + 4) == Get32(Put32(v % U32), 0);
    assert Get32(b, i + 8) == Get32(Put32(w / U32), 0) && Get32(b, i + 12) == Get32(Put32(w % U32), 0);
  }

  /** The entries that were added are read back, in order. */
  lemma {:induction false} RsvRead(rs: seq<Rsv>, b: Str, n: nat)
    requires AllRsv(rs) && n < |rs| && 16 * |rs| <= |b| && b[..16 * |rs|] == RsvBytes(rs)
    ensures MemRsv(b, n) == rs[n]
    decreases |rs|
  {
    hide Put64, Get64;
    var k := |rs| - 1;
    var r := rs[k];
    assert r in rs && IsRsv(r);
    assert b[..16 * |rs|][..16 * k] == b[..16 * k];
    assert b[..16 * |rs|][16 * k..] == b[16 * k..16 * k + 16];
    assert RsvBytes(rs)[..16 * k] == RsvBytes(rs[..k]);
    if n < k {
      assert forall x | x in rs[..k] :: x in rs;
      RsvRead(rs[..k], b, n);
    } else {
      assert RsvBytes(rs)[16 * k..] == Put64(r.addr) + Put64(r.size);
      Put64Get(r.addr, r.size, b, 16 * k);
    }
  }

  /** All entries written are read back, the one that ends the block last. */
  lemma ReserveReads(rs: seq<Rsv>, b: Str)
    requires AllRsv(rs) && b == RsvBytes(rs)
    ensures |b| == 16 * |rs| && forall i: nat | i < |rs| :: MemRsv(b, i) == rs[i]
  {
    assert b[..16 * |rs|] == b;
    forall i: nat | i < |rs|
      ensures MemRsv(b, i) == rs[i]
    {
      RsvRead(rs, b, i);
    }
  }

  /**
   * The entries that are counted are those in front of the first empty one: all that were added, if none of them is
   * empty.
   */
  lemma CountsAdded(rs: seq<Rsv>, b: Str, n: int)
    requires AllRsv(rs + [Rsv(0, 0)]) && b == RsvBytes(rs + [Rsv(0, 0)]) && Counts(b, n)
    ensures 0 <= n <= |rs| && (rs + [Rsv(0, 0)])[n].size == 0 && forall i: nat | i < n :: rs[i].size != 0
    ensures (forall r | r in rs :: r.size != 0) ==> n == |rs|
  {
    hide RsvBytes, MemRsv, AllRsv;
    var all := rs + [Rsv(0, 0)];
    ReserveReads(all, b);
    assert MemRsv(b, |rs|) == all[|rs|];
    assert 0 <= n <= |rs|;
    forall i: nat | i < n
      ensures rs[i].size != 0
    {
      assert MemRsv(b, i) == all[i];
    }
    if n < |rs| {
      assert MemRsv(b, n) == all[n] == rs[n] && rs[n] in rs;
    }
  }

  /**
   * A program that writes every node it begins to the end: the blob decodes to exactly the tree that it describes, and
   * its reserve entries are those that were added; fdt_num_mem_rsv counts them all if none is empty.
   */
  method RunBalanced(w: Writer, buf: nat, bufsize: nat, noDedup: bool, cs: seq<Call>) returns (ok: bool)
    requires buf + bufsize <= w.mem.Length && bufsize <= INT_MAX && w.mem[..] == w.bytes
    requires (forall c | c in cs :: CallOk(c, w.mem.Length)) && Balanced(Toks(cs))
    modifies w, w.mem
    ensures ok ==> w.Layout() && w.finished && w.offStrings == w.offStruct + w.sizeStruct
                   && w.totalsize == w.offStrings + w.sizeStrings
    ensures ok ==> Encodes(Fdt(w.Struct(), w.Strs()), Parse(Toks(cs)).0) && Flat(Parse(Toks(cs)).0) == Toks(cs)
    ensures ok ==> var rs := Adds(cs) + [Rsv(0, 0)];
                   |w.RsvBlock()| == 16 * |rs| && forall i: nat | i < |rs| :: MemRsv(w.RsvBlock(), i) == rs[i]
    ensures ok && (forall r | r in Adds(cs) :: r.size != 0) ==> forall n | Counts(w.RsvBlock(), n) :: n == |Adds(cs)|
  {
    hide RsvBytes, AllRsv, Block, RepAll, Balanced, Encodes, Toks, Adds, Parse, MemRsv, Counts;
    ok := Run(w, buf, bufsize, noDedup, cs);
    if ok {
      FinishedDecodes(Fdt(w.Struct(), w.Strs()), Toks(cs), Parse(Toks(cs)).0);
      ReserveReads(w.rsv, w.RsvBlock());
      forall n | Counts(w.RsvBlock(), n)
        ensures (forall r | r in Adds(cs) :: r.size != 0) ==> n == |Adds(cs)|
      {
        CountsAdded(Adds(cs), w.RsvBlock(), n);
      }
    }
  }
}
