/**
 * The dictionary of the properties already written (libs/libufdt/ufdt_prop_dict.c): open addressing with linear
 * probing in a table that doubles when more than two thirds of it are used.
 */
module PropDicts {
  import opened Bytes
  import opened Positions

  /** A property in the output, by its offset, and its name if the string table has it. */
  datatype Prop = Prop(name: Option<Str>, at: nat)

  type Slots = seq<Option<Prop>>

  const INIT_SIZE := 4

  // ----- Probing -----

  /** The slot d places after h, around the end. */
  function Probe(h: nat, d: nat, size: nat): nat
    requires h < size && d < size
    ensures Probe(h, d, size) < size
  {
    if h + d < size then h + d else h + d - size
  }

  /** How many places slot i is after h. */
  function Dist(h: nat, i: nat, size: nat): (d: nat)
    requires h < size && i < size
    ensures d < size && Probe(h, d, size) == i
  {
    if h <= i then i - h else i + size - h
  }

  function Home(hash: Str -> nat, name: Str, size: nat): nat
    requires size > 0
    ensures Home(hash, name, size) < size
  {
    hash(name) % size
  }

  /** Slots 0 to d - 1 on the way from h are taken. */
  ghost predicate Taken(s: Slots, h: nat, d: nat)
    requires h < |s| && d <= |s|
  {
    forall e: nat | e < d :: s[Probe(h, e, |s|)].Some?
  }

  /** at says in which slot each name is; no probe chain is broken. */
  ghost predicate Table(s: Slots, hash: Str -> nat, at: map<Str, nat>) {
    && |s| > 0
    && (forall n | n in at :: at[n] < |s| && s[at[n]].Some? && s[at[n]].value.name == Some(n))
    && (forall i | 0 <= i < |s| && s[i].Some? :: s[i].value.name.Some? && s[i].value.name.value in at
                                                 && at[s[i].value.name.value] == i)
    && (forall n | n in at :: Taken(s, Home(hash, n, |s|), Dist(Home(hash, n, |s|), at[n], |s|)))
  }

  /** The finite map that the table stands for. */
  ghost function Contents(s: Slots, at: map<Str, nat>): map<Str, Prop>
    requires forall n | n in at :: at[n] < |s| && s[at[n]].Some?
  {
    map n | n in at :: s[at[n]].value
  }

  /** Slot i, which is where name is or belongs: all slots on the way to it are taken by others. */
  ghost predicate Spot(s: Slots, hash: Str -> nat, at: map<Str, nat>, name: Str, i: nat) {
    && i < |s|
    && (if s[i].Some? then name in at && at[name] == i
       else name !in at && Taken(s, Home(hash, name, |s|), Dist(Home(hash, name, |s|), i, |s|)))
  }

  function Count(s: Slots): nat {
    if s == [] then 0 else (if s[0].Some? then 1 else 0) + Count(s[1..])
  }

  lemma {:induction false} CountFull(s: Slots)
    ensures Count(s) <= |s|
    ensures Count(s) < |s| ==> exists i :: 0 <= i < |s| && s[i].None?
  {
    if s != [] {
      CountFull(s[1..]);
      if Count(s[1..]) < |s[1..]| {
        var i :| 0 <= i < |s[1..]| && s[1..][i].None?;
        assert s[i + 1].None?;
      }
    }
  }

  lemma {:induction false} CountPut(s: Slots, i: nat, p: Prop)
    requires i < |s|
    ensures Count(s[i := Some(p)]) == Count(s) + if s[i].Some? then 0 else 1
  {
    if i == 0 {
      assert s[i := Some(p)][1..] == s[1..];
    } else {
      CountPut(s[1..], i - 1, p);
      assert s[i := Some(p)][1..] == s[1..][i - 1 := Some(p)];
    }
  }

  lemma {:induction false} CountMore(s: Slots, k: nat)
    requires k < |s|
    ensures Count(s[..k + 1]) == Count(s[..k]) + if s[k].Some? then 1 else 0
  {
    if k == 0 {
      assert s[..1][1..] == [] && s[..0] == [];
    } else {
      CountMore(s[1..], k - 1);
      assert s[..k + 1][1..] == s[1..][..k] && s[..k][1..] == s[1..][..k - 1];
    }
  }

  lemma {:induction false} CountNone(s: Slots)
    requires forall i :: 0 <= i < |s| ==> s[i].None?
    ensures Count(s) == 0
  {
    if s != [] {
      CountNone(s[1..]);
    }
  }

  /** A name that has not been met before an empty slot is nowhere. */
  lemma NotThere(s: Slots, hash: Str -> nat, at: map<Str, nat>, name: Str, d: nat)
    requires Table(s, hash, at) && d < |s|
    requires var h := Home(hash, name, |s|);
             && s[Probe(h, d, |s|)].None?
             && forall e: nat | e < d :: s[Probe(h, e, |s|)].Some? && s[Probe(h, e, |s|)].value.name != Some(name)
    ensures name !in at && Spot(s, hash, at, name, Probe(Home(hash, name, |s|), d, |s|))
  {
    hide Home;
    var h := Home(hash, name, |s|);
    if name in at {
      assert false;
    }
    assert Dist(h, Probe(h, d, |s|), |s|) == d;
  }

  /** _ufdt_prop_dict_find_index_by_name: none only if the table is full of other names. */
  method FindIndexByName(slots: array<Option<Prop>>, hash: Str -> nat, name: Str, ghost at: map<Str, nat>)
      returns (r: Option<nat>)
    requires Table(slots[..], hash, at)
    ensures r.Some? ==> Spot(slots[..], hash, at, name, r.value)
    ensures r.None? ==> Count(slots[..]) == slots.Length
  {
    hide Home, Table, Spot, Count;
    TableSize(slots[..], hash, at);
    var size := slots.Length;
    ghost var h := Home(hash, name, size);
    var idx := Home(hash, name, size);
    var i := 0;
    while i < size
      invariant 0 <= i <= size && idx < size
      invariant i < size ==> idx == Probe(h, i, size)
      invariant forall e: nat | e < i :: slots[Probe(h, e, size)].Some?
                                         && slots[Probe(h, e, size)].value.name != Some(name)
    {
      if slots[idx].None? {
        NotThere(slots[..], hash, at, name, i);
        return Some(idx);
      }
      if slots[idx].value.name == Some(name) {
        HereItIs(slots[..], hash, at, name, idx);
        return Some(idx);
      }
      idx := if idx + 1 == size then 0 else idx + 1;
      i := i + 1;
    }
    r := None;
    FullTable(slots[..], h);
  }

  lemma TableSize(s: Slots, hash: Str -> nat, at: map<Str, nat>)
    requires Table(s, hash, at)
    ensures |s| > 0
  {
  }

  lemma HereItIs(s: Slots, hash: Str -> nat, at: map<Str, nat>, name: Str, i: nat)
    requires Table(s, hash, at) && i < |s| && s[i].Some? && s[i].value.name == Some(name)
    ensures Spot(s, hash, at, name, i)
  {
  }

  lemma FullTable(s: Slots, h: nat)
    requires h < |s| && forall e: nat | e < |s| :: s[Probe(h, e, |s|)].Some?
    ensures Count(s) == |s|
  {
    hide Count;
    CountFull(s);
    forall i | 0 <= i < |s|
      ensures s[i].Some?
    {
      assert s[Probe(h, Dist(h, i, |s|), |s|)].Some?;
    }
  }

  // ----- Storing -----

  /** Putting p into the spot of its name keeps the table and changes the map at that name only. */
  lemma Stored(s: Slots, hash: Str -> nat, at: map<Str, nat>, p: Prop, i: nat)
    requires Table(s, hash, at) && p.name.Some? && Spot(s, hash, at, p.name.value, i)
    ensures Table(s[i := Some(p)], hash, at[p.name.value := i])
    ensures Contents(s[i := Some(p)], at[p.name.value := i]) == Contents(s, at)[p.name.value := p]
  {
    hide Home, Probe, Dist;
    var n := p.name.value;
    var t := s[i := Some(p)];
    var to := at[n := i];
    forall j | 0 <= j < |t| && t[j].Some?
      ensures t[j].value.name.Some? && t[j].value.name.value in to && to[t[j].value.name.value] == j
    {
    }
    forall m | m in to
      ensures Taken(t, Home(hash, m, |t|), Dist(Home(hash, m, |t|), to[m], |t|))
    {
      assert m in at ==> Taken(s, Home(hash, m, |s|), Dist(Home(hash, m, |s|), at[m], |s|));
    }
  }

  class PropDict {
    const hash: Str -> nat
    var slots: array<Option<Prop>>
    var numUsed: nat
    ghost var at: map<Str, nat>

    ghost predicate Valid()
      reads this, slots
    {
      Table(slots[..], hash, at) && numUsed == Count(slots[..]) && numUsed * 3 <= slots.Length * 2
    }

    ghost function Map(): map<Str, Prop>
      requires Valid()
      reads this, slots
    {
      Contents(slots[..], at)
    }

    /** ufdt_prop_dict_construct. */
    constructor (hash: Str -> nat)
      ensures Valid() && fresh(slots) && Map() == map[]
    {
      this.hash := hash;
      slots := new Option<Prop>[INIT_SIZE](_ => None);
      numUsed := 0;
      at := map[];
      new;
      CountNone(slots[..]);
    }

    /** ufdt_prop_dict_find. */
    method Find(name: Str) returns (r: Option<Prop>)
      requires Valid()
      ensures r == if name in Map() then Some(Map()[name]) else None
    {
      var i := FindIndexByName(slots, hash, name, at);
      r := match i { case Some(j) => slots[j] case None => None };
    }

    /** ufdt_prop_dict_add: the map from names to the properties added last. */
    method Add(p: Prop) returns (ok: bool)
      requires Valid()
      modifies this, slots
      ensures Valid() && (slots == old(slots) || fresh(slots))
      ensures ok == p.name.Some?
      ensures Map() == if ok then old(Map())[p.name.value := p] else old(Map())
    {
      hide Table, Contents, Spot, Count;
      ok := p.name.Some?;
      if !ok {
        return;
      }
      ghost var s := slots[..];
      TableSize(s, hash, at);
      var r := FindIndexByName(slots, hash, p.name.value, at);
      SpotBound(s, hash, at, p.name.value, r);
      var i := r.value;
      CountPut(s, i, p);
      Stored(s, hash, at, p, i);
      if slots[i].None? {
        numUsed := numUsed + 1;
      }
      slots[i] := Some(p);
      at := at[p.name.value := i];
      assert slots[..] == s[i := Some(p)];
      CountFull(slots[..]);
      EnlargeIfNeeded();
    }

    /** _ufdt_prop_dict_enlarge_if_needed: a table of twice the size holds the same map. */
    method EnlargeIfNeeded()
      requires Table(slots[..], hash, at) && numUsed == Count(slots[..])
      modifies this
      ensures Valid() && (slots == old(slots) || fresh(slots)) && old(Table(slots[..], hash, at))
      ensures Map() == old(Contents(slots[..], at))
    {
      hide Table, Contents, Spot, Count;
      CountFull(slots[..]);
      TableSize(slots[..], hash, at);
      if numUsed * 3 <= slots.Length * 2 {
        return;
      }
      var size := slots.Length * 2;
      var temp := new Option<Prop>[size](_ => None);
      ghost var to: map<Str, nat> := map[];
      ghost var s := slots[..];
      EmptyTable(temp[..], hash, s);
      var i := 0;
      while i < slots.Length
        invariant 0 <= i <= slots.Length && temp.Length == size && slots[..] == s && fresh(temp)
        invariant Table(temp[..], hash, to) && Count(temp[..]) == Count(s[..i])
        invariant Copied(s, i, temp[..], to)
        modifies temp
      {
        ghost var t := temp[..];
        CountMore(s, i);
        if slots[i].Some? {
          var p := slots[i].value;
          NamedNew(s, hash, at, i, t, to);
          CountFull(s[..i]);
          var j := FindIndexByName(temp, hash, p.name.value, to);
          SpotBound(t, hash, to, p.name.value, j);
          CountPut(t, j.value, p);
          Stored(t, hash, to, p, j.value);
          CopiedMore(s, hash, at, i, t, to, j.value);
          temp[j.value] := Some(p);
          to := to[p.name.value := j.value];
          assert temp[..] == t[j.value := Some(p)];
        } else {
          CopiedNone(s, i, t, to);
        }
        i := i + 1;
      }
      assert s[..i] == s;
      CopiedAll(s, hash, at, temp[..], to);
      slots := temp;
      at := to;
    }
  }

  lemma SpotBound(s: Slots, hash: Str -> nat, at: map<Str, nat>, name: Str, r: Option<nat>)
    requires r.Some? ==> Spot(s, hash, at, name, r.value)
    requires r.None? ==> Count(s) == |s|
    requires Count(s) < |s|
    ensures r.Some? && r.value < |s| && Spot(s, hash, at, name, r.value)
  {
  }

  // ----- Copying into the larger table -----

  /** The new table has the properties of the first i slots, each under its name. */
  ghost predicate Copied(s: Slots, i: nat, t: Slots, to: map<Str, nat>) {
    && i <= |s|
    && (forall n | n in to :: to[n] < |t| && t[to[n]].Some? && exists k :: 0 <= k < i && s[k] == t[to[n]])
    && (forall k | 0 <= k < i && s[k].Some? && s[k].value.name.Some? ::
       s[k].value.name.value in to && t[to[s[k].value.name.value]] == s[k])
  }

  lemma EmptyTable(t: Slots, hash: Str -> nat, s: Slots)
    requires |t| > 0 && forall i :: 0 <= i < |t| ==> t[i].None?
    ensures Table(t, hash, map[]) && Count(t) == Count(s[..0]) && Copied(s, 0, t, map[])
  {
    CountNone(t);
  }

  /** A name met for the first time is not in the new table. */
  lemma NamedNew(s: Slots, hash: Str -> nat, at: map<Str, nat>, i: nat, t: Slots, to: map<Str, nat>)
    requires Table(s, hash, at) && i < |s| && s[i].Some? && Copied(s, i, t, to) && Table(t, hash, to)
    ensures s[i].value.name.Some? && s[i].value.name.value !in to
  {
    hide Home, Probe, Dist, Taken;
    var n := s[i].value.name.value;
    if n in to {
      assert false;
    }
  }

  lemma CopiedMore(s: Slots, hash: Str -> nat, at: map<Str, nat>, i: nat, t: Slots, to: map<Str, nat>, j: nat)
    requires Table(s, hash, at) && i < |s| && s[i].Some? && s[i].value.name.Some? && Copied(s, i, t, to)
    requires Table(t, hash, to) && s[i].value.name.value !in to && Spot(t, hash, to, s[i].value.name.value, j)
    ensures Copied(s, i + 1, t[j := s[i]], to[s[i].value.name.value := j])
  {
    hide Home, Probe, Dist, Taken;
    var n := s[i].value.name.value;
    forall m | m in to
      ensures to[m] != j && exists k :: 0 <= k < i + 1 && s[k] == t[to[m]]
    {
      var k :| 0 <= k < i && s[k] == t[to[m]];
      assert 0 <= k < i + 1;
    }
  }

  lemma CopiedNone(s: Slots, i: nat, t: Slots, to: map<Str, nat>)
    requires i < |s| && s[i].None? && Copied(s, i, t, to)
    ensures Copied(s, i + 1, t, to)
  {
    forall n | n in to
      ensures exists k :: 0 <= k < i + 1 && s[k] == t[to[n]]
    {
      var k :| 0 <= k < i && s[k] == t[to[n]];
      assert 0 <= k < i + 1;
    }
  }

  lemma CopiedAll(s: Slots, hash: Str -> nat, at: map<Str, nat>, t: Slots, to: map<Str, nat>)
    requires Table(s, hash, at) && Table(t, hash, to) && Copied(s, |s|, t, to)
    ensures Contents(t, to) == Contents(s, at)
  {
    hide Home, Probe, Dist, Taken;
    forall n
      ensures n in to <==> n in at
      ensures n in at ==> t[to[n]] == s[at[n]]
    {
      if n in at {
        assert s[at[n]].value.name.value in to;
      }
      if n in to {
        var k :| 0 <= k < |s| && s[k] == t[to[n]];
        assert s[k].value.name.value in at;
      }
    }
  }
}
