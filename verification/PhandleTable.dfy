/** The sorted table of phandles of an unflattened tree (libs/libufdt/ufdt_convert.c) and the searches in it. */
module PhandleTable {
  import opened Bytes
  import opened Tree
  import opened Positions
  import opened Sem
  import opened Ufdt
  import opened Qsort

  /** One entry: a phandle and the path of the node that has it. */
  datatype Entry = Entry(phandle: nat, node: Path)

  /** phandle_table_entry_cmp. */
  function Compare(a: Entry, b: Entry): int {
    if a.phandle < b.phandle then -1 else if a.phandle == b.phandle then 0 else 1
  }

  // ----- What the table holds -----

  function Here(b: Forest, p: Path): seq<Entry> {
    if UPhandle(b) > 0 then [Entry(UPhandle(b), p)] else []
  }

  /** The nodes with a phandle, at path p and below, a parent before its children. */
  function Entries(b: Forest, p: Path): seq<Entry>
    decreases b, 1
  {
    Here(b, p) + EntriesBelow(b, p)
  }

  function EntriesBelow(b: Forest, p: Path): seq<Entry>
    decreases b, 0
  {
    match b
    case Nil => []
    case SubF(n, k, r) => Entries(k, p + [n]) + EntriesBelow(r, p)
    case _ => EntriesBelow(b.rest, p)
  }

  /** count_phandle_node. */
  function Count(b: Forest): nat
    decreases b, 1
  {
    (if UPhandle(b) > 0 then 1 else 0) + CountBelow(b)
  }

  function CountBelow(b: Forest): nat
    decreases b, 0
  {
    match b
    case Nil => 0
    case SubF(_, k, r) => Count(k) + CountBelow(r)
    case _ => CountBelow(b.rest)
  }

  /** The counting pass and the filling pass agree. */
  lemma {:induction false} CountIs(b: Forest, p: Path)
    ensures Count(b) == |Entries(b, p)|
    decreases b, 1
  {
    CountBelowIs(b, p);
  }

  lemma {:induction false} CountBelowIs(b: Forest, p: Path)
    ensures CountBelow(b) == |EntriesBelow(b, p)|
    decreases b, 0
  {
    match b
    case Nil =>
    case SubF(n, k, r) =>
      CountIs(k, p + [n]);
      CountBelowIs(r, p);
    case _ => CountBelowIs(b.rest, p);
  }

  /** data[cur..] starts with e, and what is before cur is as in s. */
  ghost predicate Filled(s: seq<Entry>, t: seq<Entry>, cur: int, e: seq<Entry>) {
    0 <= cur && cur + |e| <= |s| == |t| && t[..cur] == s[..cur] && t[cur..cur + |e|] == e
  }

  lemma FilledMore(s: seq<Entry>, t: seq<Entry>, u: seq<Entry>, cur: int, e: seq<Entry>, f: seq<Entry>)
    requires Filled(s, t, cur, e) && Filled(t, u, cur + |e|, f)
    ensures Filled(s, u, cur, e + f)
  {
    assert u[..cur] == u[..cur + |e|][..cur] && t[..cur] == t[..cur + |e|][..cur];
    assert u[cur..cur + |e|] == u[..cur + |e|][cur..] && t[cur..cur + |e|] == t[..cur + |e|][cur..];
    assert u[cur..cur + |e + f|] == u[cur..cur + |e|] + u[cur + |e|..cur + |e| + |f|];
  }

  /** set_phandle_table_entry for the node with content b at path p. */
  method SetEntries(b: Forest, p: Path, data: array<Entry>, cur: nat) returns (next: nat)
    requires cur + Count(b) <= data.Length
    modifies data
    ensures next == cur + Count(b) && Filled(old(data[..]), data[..], cur, Entries(b, p))
    decreases b, 1
  {
    hide Filled, UPhandle, CountBelow, EntriesBelow;
    ghost var s := data[..];
    CountIs(b, p);
    next := cur;
    if UPhandle(b) > 0 {
      data[cur] := Entry(UPhandle(b), p);
      next := cur + 1;
    }
    HereFilled(s, data[..], cur, Here(b, p));
    ghost var t := data[..];
    next := SetEntriesBelow(b, p, data, next);
    FilledMore(s, t, data[..], cur, Here(b, p), EntriesBelow(b, p));
  }

  lemma HereFilled(s: seq<Entry>, t: seq<Entry>, cur: int, e: seq<Entry>)
    requires 0 <= cur && ((e == [] && t == s && cur <= |s|) || (|e| == 1 && cur < |s| && t == s[cur := e[0]]))
    ensures Filled(s, t, cur, e)
  {
  }

  method SetEntriesBelow(b: Forest, p: Path, data: array<Entry>, cur: nat) returns (next: nat)
    requires cur + CountBelow(b) <= data.Length
    modifies data
    ensures next == cur + CountBelow(b) && Filled(old(data[..]), data[..], cur, EntriesBelow(b, p))
    decreases b, 0
  {
    hide Filled, Count, Entries;
    ghost var s := data[..];
    HereFilled(s, s, cur, []);
    match b
    case Nil => next := cur;
    case SubF(n, k, r) =>
      CountIs(k, p + [n]);
      next := SetEntries(k, p + [n], data, cur);
      ghost var t := data[..];
      next := SetEntriesBelow(r, p, data, next);
      FilledMore(s, t, data[..], cur, Entries(k, p + [n]), EntriesBelow(r, p));
    case NopF(r) => next := SetEntriesBelow(r, p, data, cur);
    case PropF(_, _, r) => next := SetEntriesBelow(r, p, data, cur);
  }

  // ----- The table -----

  ghost predicate Ascending(t: seq<Entry>) {
    forall i, j :: 0 <= i < j < |t| ==> t[i].phandle <= t[j].phandle
  }

  /** t is the phandle table of the tree with root content b. */
  ghost predicate IsTable(t: seq<Entry>, b: Forest) {
    Ascending(t) && multiset(t) == multiset(Entries(b, []))
  }

  lemma CompareOrders()
    ensures Preorder(Compare)
  {
  }

  /** build_phandle_table. */
  method BuildTable(b: Forest) returns (data: array<Entry>)
    ensures fresh(data) && IsTable(data[..], b)
  {
    hide Preorder;
    CountIs(b, []);
    data := new Entry[Count(b)](_ => Entry(0, []));
    var next := SetEntries(b, [], data, 0);
    assert data[..] == data[..][0..0 + |Entries(b, [])|];
    CompareOrders();
    ghost var s := data[..];
    Qsort.Qsort(data, Compare);
    forall i, j | 0 <= i < j < data.Length
      ensures data[..][i].phandle <= data[..][j].phandle
    {
      assert Compare(data[i], data[j]) <= 0;
    }
  }

  /** ufdt_get_max_phandle: the phandle of the last entry. */
  method MaxOfTable(data: array<Entry>, ghost b: Forest) returns (v: nat)
    requires IsTable(data[..], b)
    ensures v == UMaxPhandle(b)
  {
    hide Entries;
    ghost var e := Entries(b, []);
    v := if data.Length > 0 then data[data.Length - 1].phandle else 0;
    MaxIs(b, []);
    assert |data[..]| == |multiset(data[..])| == |multiset(e)| == |e|;
    if data.Length > 0 {
      assert data[..][data.Length - 1] in multiset(data[..]);
      assert data[..][data.Length - 1] in e;
      forall x | x in e
        ensures x.phandle <= v
      {
        assert x in multiset(e);
        assert x in data[..];
      }
    }
  }

  /** The largest phandle of the tree is that of some entry, and of none if there are no entries. */
  lemma {:induction false} MaxIs(b: Forest, p: Path)
    ensures forall x | x in Entries(b, p) :: x.phandle <= UMaxPhandle(b)
    ensures if Entries(b, p) == [] then UMaxPhandle(b) == 0
            else exists x :: x in Entries(b, p) && x.phandle == UMaxPhandle(b)
    decreases b, 1
  {
    MaxBelowIs(b, p);
    if UPhandle(b) > 0 {
      assert Entries(b, p)[0] == Entry(UPhandle(b), p);
    }
    assert forall x | x in EntriesBelow(b, p) :: x in Entries(b, p);
  }

  lemma {:induction false} MaxBelowIs(b: Forest, p: Path)
    ensures forall x | x in EntriesBelow(b, p) :: x.phandle <= UMaxBelow(b)
    ensures if EntriesBelow(b, p) == [] then UMaxBelow(b) == 0
            else exists x :: x in EntriesBelow(b, p) && x.phandle == UMaxBelow(b)
    decreases b, 0
  {
    match b
    case Nil =>
    case SubF(n, k, r) =>
      MaxIs(k, p + [n]);
      MaxBelowIs(r, p);
      assert forall x | x in Entries(k, p + [n]) :: x in EntriesBelow(b, p);
      assert forall x | x in EntriesBelow(r, p) :: x in EntriesBelow(b, p);
    case _ => MaxBelowIs(b.rest, p);
  }

  // ----- Searching -----

  /** ufdt_get_node_by_phandle: binary search for v. */
  method Search(data: array<Entry>, v: nat) returns (r: Option<Path>)
    requires Ascending(data[..])
    ensures match r
            case Some(p) => Entry(v, p) in data[..]
            case None => forall x | x in data[..] :: x.phandle != v
  {
    ghost var t := data[..];
    var s, e := 0, data.Length;
    while e - s > 1
      invariant 0 <= s <= e <= data.Length && (data.Length > 0 ==> s < data.Length)
      invariant forall k :: e <= k < data.Length ==> t[k].phandle > v
      invariant s == 0 || t[s].phandle <= v
    {
      var mid := s + (e - s) / 2;
      assert forall k :: mid <= k < data.Length ==> t[mid].phandle <= t[k].phandle;
      if v < data[mid].phandle {
        e := mid;
      } else {
        s := mid;
      }
    }
    r := None;
    if e - s > 0 && data[s].phandle == v {
      assert t[s] == Entry(v, data[s].node);
      r := Some(data[s].node);
    }
  }

  ghost predicate PhandlesDiffer(b: Forest) {
    forall x, y | x in Entries(b, []) && y in Entries(b, []) && x.phandle == y.phandle :: x == y
  }

  /** An exhaustive search of the tree finds an entry with phandle v, if there is one. */
  lemma {:induction false} ExhaustiveFinds(b: Forest, p: Path, v: nat)
    requires v > 0
    ensures match UPhandlePath(b, v)
            case Some(q) => Entry(v, p + q) in Entries(b, p)
            case None => forall x | x in Entries(b, p) :: x.phandle != v
    decreases b, 1
  {
    assert p + [] == p;
    if UPhandle(b) == v {
      assert Entries(b, p)[0] == Entry(v, p);
    } else {
      ExhaustiveBelow(b, p, v);
    }
  }

  lemma {:induction false} ExhaustiveBelow(b: Forest, p: Path, v: nat)
    requires v > 0
    ensures match UPhandleBelow(b, v)
            case Some(q) => Entry(v, p + q) in EntriesBelow(b, p)
            case None => forall x | x in EntriesBelow(b, p) :: x.phandle != v
    decreases b, 0
  {
    match b
    case Nil =>
    case SubF(n, k, r) =>
      ExhaustiveFinds(k, p + [n], v);
      ExhaustiveBelow(r, p, v);
      match UPhandlePath(k, v) {
        case Some(q) => assert p + ([n] + q) == p + [n] + q;
        case None =>
      }
    case _ => ExhaustiveBelow(b.rest, p, v);
  }

  lemma InTable(t: seq<Entry>, b: Forest, x: Entry)
    requires IsTable(t, b)
    ensures x in t <==> x in Entries(b, [])
  {
    assert x in t <==> x in multiset(t);
    assert x in Entries(b, []) <==> x in multiset(Entries(b, []));
  }

  lemma FoundIs(t: seq<Entry>, b: Forest, v: nat, r: Option<Path>)
    requires IsTable(t, b) && PhandlesDiffer(b)
    requires match r
             case Some(p) => Entry(v, p) in t
             case None => forall x | x in t :: x.phandle != v
    ensures r == if v == 0 then None else UPhandlePath(b, v)
  {
    hide IsTable, Entries, UPhandlePath;
    forall x: Entry
      ensures x in t <==> x in Entries(b, [])
    {
      InTable(t, b, x);
    }
    if v == 0 {
      NonZero(b, []);
    } else {
      ExhaustiveFinds(b, [], v);
      if UPhandlePath(b, v).Some? {
        assert [] + UPhandlePath(b, v).value == UPhandlePath(b, v).value;
      }
    }
  }

  /** The search in the table finds the node that an exhaustive search of the tree finds. */
  method NodeByPhandle(data: array<Entry>, v: nat, ghost b: Forest) returns (r: Option<Path>)
    requires IsTable(data[..], b) && PhandlesDiffer(b)
    ensures r == if v == 0 then None else UPhandlePath(b, v)
  {
    hide PhandlesDiffer, Entries, UPhandlePath;
    r := Search(data, v);
    FoundIs(data[..], b, v, r);
  }

  lemma {:induction false} NonZero(b: Forest, p: Path)
    ensures forall x | x in Entries(b, p) :: x.phandle > 0
    decreases b, 1
  {
    NonZeroBelow(b, p);
  }

  lemma {:induction false} NonZeroBelow(b: Forest, p: Path)
    ensures forall x | x in EntriesBelow(b, p) :: x.phandle > 0
    decreases b, 0
  {
    match b
    case Nil =>
    case SubF(n, k, r) =>
      NonZero(k, p + [n]);
      NonZeroBelow(r, p);
    case _ => NonZeroBelow(b.rest, p);
  }

  // ----- Which nodes have an entry -----

  lemma {:induction false} NodeHasEntry(b: Forest, p: Path, q: Path)
    requires NodeAt(b, q).Some? && UPhandle(NodeAt(b, q).value) > 0
    ensures Entry(UPhandle(NodeAt(b, q).value), p + q) in Entries(b, p)
    decreases |q|
  {
    if q == [] {
      assert p + q == p;
      assert Entries(b, p)[0] == Entry(UPhandle(b), p);
    } else {
      NodeHasEntry(KidAt(b, q[0]).value, p + [q[0]], q[1..]);
      assert p + [q[0]] + q[1..] == p + q;
      KidEntries(b, p, q[0], Entry(UPhandle(NodeAt(b, q).value), p + q));
    }
  }

  lemma {:induction false} KidEntries(b: Forest, p: Path, n: Str, x: Entry)
    requires KidAt(b, n).Some? && x in Entries(KidAt(b, n).value, p + [n])
    ensures x in EntriesBelow(b, p)
  {
    match b
    case SubF(m, _, r) => if m != n { KidEntries(r, p, n, x); }
    case NopF(r) => KidEntries(r, p, n, x);
    case PropF(_, _, r) => KidEntries(r, p, n, x);
  }

  lemma {:induction false} EntryIsNode(b: Forest, p: Path, x: Entry)
    requires UUniq(b) && x in Entries(b, p)
    ensures p <= x.node && NodeAt(b, x.node[|p|..]).Some? && UPhandle(NodeAt(b, x.node[|p|..]).value) == x.phandle > 0
    decreases b, 1
  {
    if x in Here(b, p) {
      assert x.node[|p|..] == [];
    } else {
      EntryIsBelow(b, p, x);
    }
  }

  lemma {:induction false} EntryIsBelow(b: Forest, p: Path, x: Entry)
    requires UUniq(b) && x in EntriesBelow(b, p)
    ensures p < x.node && KidAt(b, x.node[|p|]).Some?
    ensures NodeAt(b, x.node[|p|..]).Some? && UPhandle(NodeAt(b, x.node[|p|..]).value) == x.phandle > 0
    decreases b, 0
  {
    match b
    case SubF(n, k, r) =>
      if x in Entries(k, p + [n]) {
        EntryIsNode(k, p + [n], x);
        assert x.node[|p|..][1..] == x.node[|p + [n]|..];
      } else {
        EntryIsBelow(r, p, x);
        assert KidAt(b, x.node[|p|]) == KidAt(r, x.node[|p|]);
      }
    case NopF(r) => EntryIsBelow(r, p, x);
    case PropF(_, _, r) => EntryIsBelow(r, p, x);
  }

  /** No two places in a table are for the same node. */
  ghost predicate NodesDiffer(e: seq<Entry>) {
    forall i, j :: 0 <= i < j < |e| ==> e[i].node != e[j].node
  }

  lemma {:induction false} OneEntryEach(b: Forest, p: Path)
    requires UUniq(b)
    ensures NodesDiffer(Entries(b, p))
    decreases b, 1
  {
    OneEntryBelow(b, p);
    forall x | x in EntriesBelow(b, p)
      ensures x.node != p
    {
      EntryIsBelow(b, p, x);
    }
    CatDiffer(Here(b, p), EntriesBelow(b, p));
  }

  lemma CatDiffer(e: seq<Entry>, f: seq<Entry>)
    requires NodesDiffer(e) && NodesDiffer(f) && forall x, y | x in e && y in f :: x.node != y.node
    ensures NodesDiffer(e + f)
  {
  }

  lemma {:induction false} OneEntryBelow(b: Forest, p: Path)
    requires UUniq(b)
    ensures NodesDiffer(EntriesBelow(b, p))
    decreases b, 0
  {
    match b
    case Nil =>
    case SubF(n, k, r) =>
      OneEntryEach(k, p + [n]);
      OneEntryBelow(r, p);
      forall x, y | x in Entries(k, p + [n]) && y in EntriesBelow(r, p)
        ensures x.node != y.node
      {
        EntryIsNode(k, p + [n], x);
        EntryIsBelow(r, p, y);
        assert x.node[|p|] == n;
      }
      CatDiffer(Entries(k, p + [n]), EntriesBelow(r, p));
    case _ => OneEntryBelow(b.rest, p);
  }
}
