/**
 * Paths that begin with an alias: what fdt_path_offset makes of them is what it makes of the path that the alias stands
 * for; and the look-ups by position and by content are the same.
 */
module Aliases {
  import opened Bytes
  import opened Tree
  import opened Encoding
  import opened Positions
  import opened FdtRead
  import opened Edits
  import opened Merge
  import opened Walk
  import opened Sem
  import opened Overlay
  import opened Paths
  import opened Lookups

  // ----- Names -----

  /** The name base with a unit address. */
  function AtUnit(base: Str, unit: Str): Str {
    base + ['@' as int] + unit
  }

  /** A name is found under itself, and under what is in front of its unit address by a name that has none. */
  lemma NameStandsFor(m: Str, n: Str)
    ensures NodeNameEq(m, n) <==> m == n || ('@' as int !in n && exists unit :: m == AtUnit(n, unit))
  {
    if NodeNameEq(m, n) && |m| > |n| {
      assert m == AtUnit(n, m[|n| + 1..]);
    }
    assert m == n ==> m[..|n|] == n;
  }

  lemma {:induction false} PathFromApp(p: Pos, cs: seq<Str>, rest: seq<Str>)
    requires p.f.SubF?
    ensures PathFrom(p, cs + rest) == match PathFrom(p, cs) case None => None case Some(q) => PathFrom(q, rest)
    decreases |cs|
  {
    hide FindSub;
    if cs == [] {
      assert cs + rest == rest;
    } else {
      assert (cs + rest)[0] == cs[0] && (cs + rest)[1..] == cs[1..] + rest;
      match FindSub(Enter(p), Named(cs[0])) {
        case None =>
        case Some(q) => PathFromApp(q, cs[1..], rest);
      }
    }
  }

  // ----- Aliases -----

  /** The value of the alias a: that of the property a of the node /aliases. */
  function AliasIn(f: Forest, a: Str): Option<Str>
    requires IsRoot(f)
  {
    match PathFrom(Pos(Top, f), [ALIASES])
    case None => None
    case Some(q) => Read(q, a)
  }

  /** A path of names from the root, with more names after it. */
  lemma AbsoluteMore(f: Forest, s: Str, rest: Str)
    requires IsRoot(f) && s != [] && s[0] == SLASH && (rest == [] || rest[0] == SLASH)
    ensures PathTo(f, s + rest) == FoundOr(PathFrom(Pos(Top, f), Comps(s) + Comps(rest)))
  {
    hide Comps, PathFrom;
    NoComps();
    if rest == [] {
      assert s + rest == s && Comps(s) + [] == Comps(s);
    } else {
      CompsCat(s, rest);
    }
  }

  /** An alias stands for its value: the rest of the path is followed from the node that the value leads to. */
  lemma AliasExpands(f: Forest, a: Str, v: Str, rest: Str)
    requires IsRoot(f) && Proper(a) && AliasIn(f, a) == Some(v) && IsAlias(v) && (rest == [] || rest[0] == SLASH)
    ensures PathTo(f, a + rest) == PathTo(f, CStr(v) + rest)
  {
    hide Comps, PathFrom, CStr, FindProp;
    WordStops(a, rest);
    assert (a + rest)[..|a|] == a && (a + rest)[|a|..] == rest && (a + rest)[0] == a[0] && a[0] in a;
    AliasFront(v);
    AbsoluteMore(f, CStr(v), rest);
    PathFromApp(Pos(Top, f), Comps(CStr(v)), Comps(rest));
  }

  lemma AliasFront(v: Str)
    requires IsAlias(v)
    ensures CStr(v) != [] && CStr(v)[0] == SLASH
  {
  }

  /** What is neither absolute nor begins with an alias is no path. */
  lemma NoAlias(f: Forest, a: Str, rest: Str)
    requires IsRoot(f) && Proper(a) && (rest == [] || rest[0] == SLASH)
    requires match AliasIn(f, a) case None => true case Some(v) => !IsAlias(v)
    ensures PathTo(f, a + rest) == Err(-BADPATH) && PathTo(f, []) == Err(-BADPATH)
  {
    hide Comps, PathFrom, CStr, FindProp;
    WordStops(a, rest);
    assert (a + rest)[..|a|] == a && (a + rest)[0] == a[0] && a[0] in a;
  }

  /** An alias of a node above p, followed by the names from there to p, leads to p. */
  lemma AliasLeads(p: Pos, q: Pos, a: Str, v: Str, names: seq<Str>)
    requires p.f.SubF? && IsRoot(Whole(p)) && Unambiguous(p) && NamesTo(p)[0] == []
    requires forall n | n in NamesTo(p)[1..] :: Proper(n)
    requires q.f.SubF? && NamesTo(p) == NamesTo(q) + names
    requires Proper(a) && AliasIn(Whole(p), a) == Some(v) && IsAlias(v) && CStr(v) == PathStr(NamesTo(q))
    ensures PathTo(Whole(p), a + Join(names)) == Ok(p)
  {
    hide Comps, PathFrom, CStr, Unambiguous, AliasIn, PathStr, Plug, Chain;
    var f, above := Whole(p), NamesTo(q);
    assert NamesTo(p)[1..] == above[1..] + names;
    assert forall n | n in above[1..] :: n in NamesTo(p)[1..];
    assert forall n | n in names :: n in NamesTo(p)[1..];
    AliasExpands(f, a, v, Join(names));
    PathStrComps(above);
    CompsJoin(names);
    AbsoluteMore(f, PathStr(above), Join(names));
    NamesLead(p);
  }

  // ----- Look-ups by position and by content -----

  lemma {:induction false} FoundSub(p: Pos, n: Str)
    ensures match FindSub(p, Named(n))
            case None => !HasSub(p.f, n)
            case Some(q) =>
              HasSub(p.f, n) && q.f.name == SubName(p.f, n) && q.f.body == SubBody(p.f, n) && Chain(q.c) == Chain(p.c)
    decreases p.f
  {
    match p.f
    case Nil =>
    case SubF(m, _, _) => if !NodeNameEq(m, n) { FoundSub(After(p), n); }
    case _ => FoundSub(Next(p), n);
  }

  /** The names that a path of names leads along are those that its nodes have. */
  lemma {:induction false} ResolveFrom(p: Pos, cs: seq<Str>)
    requires p.f.SubF?
    ensures match PathFrom(p, cs)
            case None => Resolve(p.f.body, cs) == None
            case Some(q) => Resolve(p.f.body, cs).Some? && NamesTo(q) == NamesTo(p) + Resolve(p.f.body, cs).value
    decreases |cs|
  {
    hide FindSub, HasSub, SubName, SubBody, NamesTo, Resolve;
    if cs == [] {
      NoNames(p);
    } else {
      KidNames(p, cs[0]);
      ResolveStep(p.f.body, cs);
      match FindSub(Enter(p), Named(cs[0])) {
        case None =>
        case Some(q) =>
          ResolveFrom(q, cs[1..]);
          if PathFrom(q, cs[1..]).Some? {
            var r := Resolve(q.f.body, cs[1..]).value;
            assert NamesTo(p) + [q.f.name] + r == NamesTo(p) + ([q.f.name] + r);
          }
      }
    }
  }

  lemma NoNames(p: Pos)
    requires p.f.SubF?
    ensures Resolve(p.f.body, []) == Some([]) && NamesTo(p) == NamesTo(p) + []
  {
  }

  lemma ResolveStep(b: Forest, cs: seq<Str>)
    requires cs != []
    ensures Resolve(b, cs) ==
            if !HasSub(b, cs[0]) || Resolve(SubBody(b, cs[0]), cs[1..]).None? then None
            else Some([SubName(b, cs[0])] + Resolve(SubBody(b, cs[0]), cs[1..]).value)
  {
  }

  lemma KidNames(p: Pos, n: Str)
    requires p.f.SubF?
    ensures match FindSub(Enter(p), Named(n))
            case None => !HasSub(p.f.body, n)
            case Some(q) => HasSub(p.f.body, n) && q.f.name == SubName(p.f.body, n) && q.f.body == SubBody(p.f.body, n)
                            && NamesTo(q) == NamesTo(p) + [q.f.name]
  {
    hide FindSub, HasSub, SubName, SubBody;
    FoundSub(Enter(p), n);
    ChainIn(p);
  }

  lemma ChainIn(p: Pos)
    requires p.f.SubF?
    ensures Chain(Enter(p).c) == NamesTo(p)
  {
  }

  /** r is the answer of a look-up by position, r' that of the look-up by content. */
  predicate SameAnswer(r: Res<Pos>, r': Res<Path>) {
    match r
    case Ok(q) => q.f.SubF? && r' == Ok(NamesTo(q)[1..])
    case Err(code) => r' == Err(code)
  }

  lemma ResolveRoot(f: Forest, cs: seq<Str>)
    requires IsRoot(f)
    ensures SameAnswer(FoundOr(PathFrom(Pos(Top, f), cs)), NodeOf(f.body, Ok(cs)))
  {
    hide Resolve, PathFrom;
    var root := Pos(Top, f);
    ResolveFrom(root, cs);
    assert NamesTo(root) == [f.name];
    if PathFrom(root, cs).Some? {
      assert ([f.name] + Resolve(f.body, cs).value)[1..] == Resolve(f.body, cs).value;
    }
  }

  lemma AliasSame(f: Forest, a: Str)
    requires IsRoot(f)
    ensures AliasIn(f, a) == AliasValue(f.body, a)
  {
    hide FindSub, HasSub, SubBody, FindProp, HasProp, PropData;
    FoundSub(Enter(Pos(Top, f)), ALIASES);
    assert [ALIASES][1..] == [];
    if FindSub(Enter(Pos(Top, f)), Named(ALIASES)).Some? {
      var q := FindSub(Enter(Pos(Top, f)), Named(ALIASES)).value;
      assert PathFrom(q, []) == Some(q);
      FindHas(Enter(q), a);
    }
  }

  /** fdt_path_offset on the bytes and the look-up in the content of the root agree on every path. */
  lemma LookupIsPathTo(f: Forest, path: Str)
    requires IsRoot(f)
    ensures SameAnswer(PathTo(f, path), Lookup(f.body, path))
  {
    hide Resolve, PathFrom, Comps, CStr, AliasValue, FindProp, SameAnswer;
    LookupNames(f.body, path);
    ErrSame();
    if path != [] {
      if path[0] == SLASH {
        ResolveRoot(f, Comps(path));
      } else {
        var n, root := Word(path), Pos(Top, f);
        AliasSame(f, path[..n]);
        var v := AliasIn(f, path[..n]);
        if v.Some? && IsAlias(v.value) {
          ResolveRoot(f, Comps(CStr(v.value)) + Comps(path[n..]));
          PathFromApp(root, Comps(CStr(v.value)), Comps(path[n..]));
        }
      }
    }
  }

  lemma ErrSame()
    ensures forall code :: SameAnswer(Err(code), Err(code))
  {
  }
}
