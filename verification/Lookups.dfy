/** Merging keeps names unique, and look-ups by path and by phandle find what they should. */
module Lookups {
  import opened Bytes
  import opened Tree
  import opened Encoding
  import opened Positions
  import opened Edits
  import opened Merge
  import opened Sem
  import opened Overlay
  import opened Refs
  import opened Conflicts

  // ----- Names stay unique -----

  lemma {:induction false} PutPropUniq(b: Forest, n: Str, d: Str, m: Str)
    requires HasProp(b, n)
    ensures HasProp(PutProp(b, n, d), m) == HasProp(b, m)
    ensures Uniq(b) ==> Uniq(PutProp(b, n, d))
  {
    match b
    case PropF(l, _, r) => if l != n { PutPropUniq(r, n, d, m); PutPropUniq(r, n, d, l); }
    case NopF(r) => PutPropUniq(r, n, d, m);
  }

  lemma {:induction false} PutSubUniq(b: Forest, n: Str, k: Forest, m: Str)
    requires HasSub(b, n) && Uniq(b) && Uniq(k)
    ensures Uniq(PutSub(b, n, k)) && HasProp(PutSub(b, n, k), m) == HasProp(b, m)
    ensures KidAt(PutSub(b, n, k), m).Some? == KidAt(b, m).Some?
  {
    match b
    case SubF(l, _, r) =>
      if !NodeNameEq(l, n) {
        PutSubUniq(r, n, k, m);
        PutSubUniq(r, n, k, l);
      }
    case NopF(r) => PutSubUniq(r, n, k, m);
    case PropF(l, _, r) =>
      PutSubUniq(r, n, k, m);
      PutSubUniq(r, n, k, l);
  }

  lemma {:induction false} AddSubUniq(b: Forest, n: Str, m: Str)
    requires !HasSub(b, n) && Uniq(b)
    ensures Uniq(AddSub(b, n)) && HasProp(AddSub(b, n), m) == HasProp(b, m)
  {
    match b
    case NopF(r) => AddSubUniq(r, n, m);
    case PropF(l, _, r) =>
      AddSubUniq(r, n, m);
      AddSubUniq(r, n, l);
    case _ => NoKid(b, n);
  }

  lemma {:induction false} NoKid(b: Forest, n: Str)
    requires !HasSub(b, n)
    ensures KidAt(b, n) == None
  {
    match b
    case Nil =>
    case SubF(m, _, r) =>
      assert NodeNameEq(n, n);
      NoKid(r, n);
    case _ => NoKid(b.rest, n);
  }

  lemma {:induction false} ApplyPropsUniq(b: Forest, o: Forest)
    requires Uniq(b)
    ensures Uniq(ApplyProps(b, o))
    decreases o
  {
    match o
    case PropF(n, d, r) =>
      if HasProp(b, n) {
        PutPropUniq(b, n, d, n);
      }
      ApplyPropsUniq(SetProp(b, n, d), r);
    case NopF(r) => ApplyPropsUniq(b, r);
    case _ =>
  }

  lemma {:induction false} ApplyUniq(b: Forest, o: Forest)
    requires Uniq(b) && Uniq(o)
    ensures Uniq(Apply(b, o))
    decreases o, 1
  {
    ApplyPropsUniq(b, o);
    ApplySubsUniq(ApplyProps(b, o), o);
  }

  lemma {:induction false} ApplySubsUniq(b: Forest, o: Forest)
    requires Uniq(b) && Uniq(o)
    ensures Uniq(ApplySubs(b, o))
    decreases o, 0
  {
    match o
    case Nil =>
    case SubF(n, k, r) =>
      var w := WithSub(b, n);
      var j := SubBody(w, n);
      if !HasSub(b, n) {
        AddSubUniq(b, n, n);
      }
      SubIsMeant(w, n);
      KidUniq(w, Meant(w, n));
      ApplyUniq(j, k);
      PutSubUniq(w, n, Apply(j, k), n);
      ApplySubsUniq(PutSub(w, n, Apply(j, k)), r);
    case _ => ApplySubsUniq(b, o.rest);
  }

  lemma {:induction false} PutKidUniq(b: Forest, n: Str, k: Forest, m: Str)
    requires KidAt(b, n).Some? && Uniq(b) && Uniq(k)
    ensures Uniq(PutKid(b, n, k)) && HasProp(PutKid(b, n, k), m) == HasProp(b, m)
    ensures KidAt(PutKid(b, n, k), m).Some? == KidAt(b, m).Some?
  {
    match b
    case SubF(l, _, r) =>
      if l != n {
        PutKidUniq(r, n, k, m);
        PutKidUniq(r, n, k, l);
      }
    case NopF(r) => PutKidUniq(r, n, k, m);
    case PropF(l, _, r) =>
      PutKidUniq(r, n, k, m);
      PutKidUniq(r, n, k, l);
  }

  lemma {:induction false} PutAtUniq(b: Forest, q: Path, k: Forest)
    requires NodeAt(b, q).Some? && Uniq(b)
    ensures Uniq(NodeAt(b, q).value)
    ensures Uniq(k) ==> Uniq(PutAt(b, q, k))
    decreases |q|
  {
    if q != [] {
      KidUniq(b, q[0]);
      var j := KidAt(b, q[0]).value;
      PutAtUniq(j, q[1..], k);
      if Uniq(k) {
        PutKidUniq(b, q[0], PutAt(j, q[1..], k), []);
      }
    }
  }

  // ----- Look-ups -----

  lemma {:induction false} SubNameIs(k: Forest, n: Str, s: set<Str>)
    requires NamesIn(k, s) && Exact(s) && n in s && HasSub(k, n)
    ensures SubName(k, n) == n
  {
    match k
    case SubF(m, _, r) => if !NodeNameEq(m, n) { SubNameIs(r, n, s); }
    case NopF(r) => SubNameIs(r, n, s);
    case PropF(_, _, r) => SubNameIs(r, n, s);
  }

  lemma {:induction false} ResolveIs(b: Forest, cs: seq<Str>, s: set<Str>)
    requires NamesIn(b, s) && Exact(s) && forall n | n in cs :: n in s
    ensures Resolve(b, cs) == if NodeAt(b, cs).Some? then Some(cs) else None
    decreases |cs|
  {
    if cs != [] {
      assert cs[0] in cs;
      SubIsKid(b, cs[0], s);
      if HasSub(b, cs[0]) {
        SubNameIs(b, cs[0], s);
        ResolveIs(SubBody(b, cs[0]), cs[1..], s);
        assert [cs[0]] + cs[1..] == cs;
      }
    }
  }

  /** A search for a phandle finds a node that has it, and finds none only if no node has it. */
  lemma {:induction false} PhandlePathFinds(b: Forest, v: nat, q: Path)
    requires Uniq(b)
    ensures PhandlePath(b, v).Some? ==> NodeAt(b, PhandlePath(b, v).value).Some? && Ph(b, PhandlePath(b, v).value) == v
    ensures PhandlePath(b, v).None? && v != 0 ==> Ph(b, q) != v
    decreases b, 1
  {
    PhandleBelowFinds(b, v, q);
  }

  lemma {:induction false} PhandleBelowFinds(b: Forest, v: nat, q: Path)
    requires Uniq(b)
    ensures match PhandleBelow(b, v)
            case Some(p) => p != [] && NodeAt(b, p).Some? && Ph(b, p) == v
            case None => v != 0 && q != [] ==> Ph(b, q) != v
    decreases b, 0
  {
    match b
    case Nil =>
    case SubF(n, k, r) =>
      PhandlePathFinds(k, v, if q == [] then [] else q[1..]);
      PhandleBelowFinds(r, v, q);
      match PhandlePath(k, v) {
        case Some(p) => assert ([n] + p)[1..] == p;
        case None =>
          match PhandleBelow(r, v) {
            case Some(p) => assert KidAt(b, p[0]) == KidAt(r, p[0]);
            case None =>
          }
      }
    case _ => PhandleBelowFinds(b.rest, v, q);
  }

  // ----- Paths -----

  /** The names that fdt_path_offset looks up one after the other: an alias stands for those of its value. */
  function PathNames(b: Forest, s: Str): Res<seq<Str>> {
    if s == [] then Err(-BADPATH) else
    if s[0] == SLASH then Ok(Comps(s)) else AliasNames(b, s[..Word(s)], Comps(s[Word(s)..]))
  }

  function AliasNames(b: Forest, name: Str, rest: seq<Str>): Res<seq<Str>> {
    match AliasValue(b, name)
    case None => Err(-BADPATH)
    case Some(a) => if a == [] || a[|a| - 1] != 0 || a[0] != SLASH then Err(-BADPATH) else Ok(Comps(CStr(a)) + rest)
  }

  function AliasValue(b: Forest, name: Str): Option<Str> {
    if HasSub(b, ALIASES) then Data(SubBody(b, ALIASES), name) else None
  }

  /** The node that the names lead to. */
  function NodeOf(b: Forest, names: Res<seq<Str>>): Res<Path> {
    match names
    case Err(code) => Err(code)
    case Ok(cs) => if Resolve(b, cs).Some? then Ok(Resolve(b, cs).value) else Err(-NOTFOUND)
  }

  lemma LookupNames(b: Forest, s: Str)
    ensures Lookup(b, s) == NodeOf(b, PathNames(b, s))
  {
    hide Comps, CStr, Resolve;
  }

  /** A path of names leads where each name, looked up in turn, leads, if there is a node. */
  lemma {:induction false} ResolveInto(b: Forest, cs: seq<Str>)
    ensures Resolve(b, cs) == if NodeAt(b, Into(b, cs)).Some? then Some(Into(b, cs)) else None
    decreases |cs|
  {
    if cs != [] {
      SubIsMeant(b, cs[0]);
      var m := Meant(b, cs[0]);
      assert Into(b, cs)[1..] == Into(KidOrNil(b, m), cs[1..]);
      if HasSub(b, cs[0]) {
        ResolveInto(SubBody(b, cs[0]), cs[1..]);
      }
    }
  }
}
