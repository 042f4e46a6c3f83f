/**
 * Bases and an overlay, with a fragment, a phandle, a local reference and a symbol, that all the hypotheses of the
 * theorems admit; and what becomes of the symbol when the target-path is an alias of one character.
 */
module Witness {
  import opened Bytes
  import opened Tree
  import opened Positions
  import opened Edits
  import opened Merge
  import opened Sem
  import opened FixupText
  import opened Overlay
  import opened OverlaySteps
  import opened Refs
  import opened Conflicts
  import opened Lookups
  import opened Merged
  import opened Steady
  import opened OverlayProof
  import opened Targets
  import opened UfdtSteps
  import opened UfdtAgree
  import opened Symbols
  import opened Paths
  import opened Examples

  // ----- Names without unit addresses -----

  lemma OwnNameOnly(m: Str, n: Str)
    requires NodeNameEq(m, n)
    ensures m == n || '@' as int in m
  {
    assert m[..|m|] == m;
    assert |m| > |n| ==> m[|n|] in m;
  }

  lemma ExactWithoutUnits(s: set<Str>)
    requires forall n | n in s :: '@' as int !in n
    ensures Exact(s)
  {
    forall m, n | m in s && n in s && NodeNameEq(m, n)
      ensures m == n
    {
      OwnNameOnly(m, n);
    }
  }

  // ----- The example -----

  const R: Str := [0x72]  // r
  const A: Str := [0x61]  // a
  const L: Str := [0x6c]  // l
  const TO_A: Str := [0x61, 0]  // a
  const LABEL: Str := [SLASH] + X + IN_OVERLAY + [SLASH] + F + [0]  // /x/__overlay__/f

  /** / { p { phandle = 5 } } */
  function SmallBase(): Forest {
    SubF(P, WithPhandle(5, Nil), Nil)
  }

  /**
   * / { x { target-path = w; __overlay__ { r = u; f { phandle = v } } }
   *     __local_fixups__ { x { __overlay__ { r = 0 } } } __symbols__ { l = "/x/__overlay__/f" } }
   */
  function SmallOverlay(w: Str, u: nat, v: nat): Forest
    requires u < U32 && v < U32
  {
    SubF(X, SmallFragment(w, u, v), SubF(LOCAL_FIXUPS, SmallFixups(), SubF(SYMBOLS, SmallSymbols(), Nil)))
  }

  function SmallFragment(w: Str, u: nat, v: nat): Forest
    requires u < U32 && v < U32
  {
    PropF(TARGET_PATH, w, SubF(OVERLAY, SmallContent(u, v), Nil))
  }

  function SmallContent(u: nat, v: nat): Forest
    requires u < U32 && v < U32
  {
    PropF(R, Put32(u), SubF(F, WithPhandle(v, Nil), Nil))
  }

  function SmallFixups(): Forest {
    SubF(X, SubF(OVERLAY, PropF(R, [0, 0, 0, 0], Nil), Nil), Nil)
  }

  function SmallSymbols(): Forest {
    PropF(L, LABEL, Nil)
  }

  function SmallNames(): set<Str> {
    {P, X, F, OVERLAY, LOCAL_FIXUPS, FIXUPS, SYMBOLS}
  }

  lemma SmallEntries(w: Str, u: nat, v: nat)
    requires u < U32 && v < U32
    ensures Bindings(SmallBase(), []) == [Binding([P], PHANDLE, Put32(5))]
    ensures Bindings(SmallOverlay(w, u, v), []) ==
            [Binding([X], TARGET_PATH, w), Binding([X, OVERLAY], R, Put32(u)),
              Binding([X, OVERLAY, F], PHANDLE, Put32(v)),
             Binding([LOCAL_FIXUPS, X, OVERLAY], R, [0, 0, 0, 0]), Binding([SYMBOLS], L, LABEL)]
  {
    hide Bindings;
    OneEntry(P, WithPhandle(5, Nil), [], [P], PHANDLE, Put32(5));
    OneEntry(P, Nil, [P], [P] + [P], PHANDLE, Put32(5));
    SmallContentEntries(w, u, v);
    SmallFixupsEntries([LOCAL_FIXUPS], [LOCAL_FIXUPS, X], [LOCAL_FIXUPS, X, OVERLAY]);
    var sy := SubF(SYMBOLS, SmallSymbols(), Nil);
    OneEntry(SYMBOLS, SmallSymbols(), [], [SYMBOLS], [], []);
    OneEntry([], Nil, [SYMBOLS], [SYMBOLS] + [[]], L, LABEL);
    SubEntry(LOCAL_FIXUPS, SmallFixups(), sy, [], [LOCAL_FIXUPS]);
    SubEntry(X, SmallFragment(w, u, v), SubF(LOCAL_FIXUPS, SmallFixups(), sy), [], [X]);
  }

  lemma SmallContentEntries(w: Str, u: nat, v: nat)
    requires u < U32 && v < U32
    ensures Bindings(SmallFragment(w, u, v), [X]) ==
            [Binding([X], TARGET_PATH, w), Binding([X, OVERLAY], R, Put32(u)),
              Binding([X, OVERLAY, F], PHANDLE, Put32(v))]
  {
    hide Bindings;
    var f, o := SubF(F, WithPhandle(v, Nil), Nil), SubF(OVERLAY, SmallContent(u, v), Nil);
    OneEntry(OVERLAY, SmallContent(u, v), [X], [X, OVERLAY], [], []);
    OneEntry(F, WithPhandle(v, Nil), [X, OVERLAY], [X, OVERLAY, F], [], []);
    OneEntry(F, Nil, [X, OVERLAY, F], [X, OVERLAY, F] + [F], PHANDLE, Put32(v));
    SubEntry([], Nil, f, [X, OVERLAY], [X, OVERLAY, []]);
    SubEntry([], Nil, o, [X], [X, []]);
  }

  lemma SmallFixupsEntries(at: Path, p: Path, q: Path)
    requires p == at + [X] && q == p + [OVERLAY]
    ensures Bindings(SmallFixups(), at) == [Binding(q, R, [0, 0, 0, 0])]
  {
    hide Bindings;
    var r := PropF(R, [0, 0, 0, 0], Nil);
    OneEntry(X, SubF(OVERLAY, r, Nil), at, p, [], []);
    OneEntry(OVERLAY, r, p, q, [], []);
    OneEntry(X, Nil, q, q + [X], R, [0, 0, 0, 0]);
  }

  lemma SmallNamesDiffer()
    ensures P != X && P != F && X != F && R != PHANDLE && R != LINUX_PHANDLE && R != TARGET_PATH && R != TARGET
            && X != LOCAL_FIXUPS && X != OVERLAY
    ensures F != OVERLAY && F != LOCAL_FIXUPS && OVERLAY != LOCAL_FIXUPS && X != FIXUPS && LOCAL_FIXUPS != FIXUPS
            && X != SYMBOLS && LOCAL_FIXUPS != SYMBOLS
    ensures PHANDLE != LINUX_PHANDLE && TARGET_PATH != PHANDLE && TARGET_PATH != LINUX_PHANDLE && TARGET_PATH != TARGET
            && PHANDLE != TARGET
    ensures L != R && L != PHANDLE && L != LINUX_PHANDLE && L != TARGET_PATH && L != TARGET && SYMBOLS != FIXUPS
            && P != SYMBOLS && P != ALIASES
    ensures A != L && A != R && A != PHANDLE && A != TARGET_PATH && SYMBOLS != OVERLAY
  {
    assert |PHANDLE| == 7 && |LINUX_PHANDLE| == 13 && |TARGET_PATH| == 11 && |TARGET| == 6 && |OVERLAY| == 11
           && |LOCAL_FIXUPS| == 16 && |FIXUPS| == 10;
    assert |SYMBOLS| == 11 && |X| == 1 && |R| == 1 && |L| == 1 && |A| == 1 && |P| == 1 && |ALIASES| == 7
           && SYMBOLS[2] != OVERLAY[2];
  }

  /** The values of the base. */
  lemma SmallBaseAt(p: Path, x: Str)
    ensures ValueAt(SmallBase(), p, x) == if p == [P] && x == PHANDLE then Some(Put32(5)) else None
  {
    hide ValueAt, Bindings;
    SmallEntries([], 0, 0);
    if ValueAt(SmallBase(), p, x).Some? {
      ValueListed(SmallBase(), [], p, x);
      assert [] + p == p;
    }
    SmallBaseHas();
  }

  lemma SmallBaseHas()
    ensures ValueAt(SmallBase(), [P], PHANDLE) == Some(Put32(5))
  {
    KidIsNode(SmallBase(), P);
  }

  lemma SmallBaseSound()
    ensures Uniq(SmallBase()) && PhandlesApart(SmallBase())
    ensures forall p :: Ph(SmallBase(), p) == if p == [P] then 5 else 0
  {
    hide ValueAt, Ph;
    SmallNamesDiffer();
    PutGet32(5);
    forall p
      ensures Ph(SmallBase(), p) == if p == [P] then 5 else 0
    {
      SmallBaseAt(p, PHANDLE);
      SmallBaseAt(p, LINUX_PHANDLE);
      PhIs(SmallBase(), p);
    }
  }

  // ----- The overlay is as it should be -----

  /** The overlay has no other values. */
  lemma SmallOverlayAt(w: Str, u: nat, v: nat, p: Path, x: Str)
    requires u < U32 && v < U32 && ValueAt(SmallOverlay(w, u, v), p, x).Some?
    ensures || (p == [X] && x == TARGET_PATH && ValueAt(SmallOverlay(w, u, v), p, x) == Some(w))
            || (p == [X, OVERLAY] && x == R)
            || (p == [X, OVERLAY, F] && x == PHANDLE)
            || (p == [LOCAL_FIXUPS, X, OVERLAY] && x == R)
            || (p == [SYMBOLS] && x == L)
  {
    hide ValueAt, Bindings;
    SmallEntries(w, u, v);
    ValueListed(SmallOverlay(w, u, v), [], p, x);
    assert [] + p == p;
  }

  lemma SmallOverlayHas(w: Str, u: nat, v: nat)
    requires u < U32 && v < U32
    ensures var o := SmallOverlay(w, u, v);
            && NodeAt(o, [X]) == Some(SmallFragment(w, u, v))
            && NodeAt(o, [X, OVERLAY]) == Some(SmallContent(u, v))
            && NodeAt(o, [X, OVERLAY, F]) == Some(WithPhandle(v, Nil))
            && ValueAt(o, [X], TARGET_PATH) == Data(SmallFragment(w, u, v), TARGET_PATH)
            && ValueAt(o, [X, OVERLAY], R) == Some(Put32(u))
            && ValueAt(o, [X, OVERLAY, F], PHANDLE) == Some(Put32(v))
            && ValueAt(o, [SYMBOLS], L) == Some(LABEL)
  {
    hide NodeAt, SmallOverlay, SmallFragment;
    SmallNamesDiffer();
    SmallKids(w, u, v);
    var o := SmallOverlay(w, u, v);
    KidIsNode(o, X);
    Grandchild(o, X, OVERLAY);
    NodeExtend(o, [X, OVERLAY], F);
    assert [X, OVERLAY] + [F] == [X, OVERLAY, F];
    KidIsNode(o, SYMBOLS);
  }

  lemma SmallPh(w: Str, v: nat, p: Path)
    requires 0 < v < U32
    ensures Ph(SmallOverlay(w, v, v), p) == if p == [X, OVERLAY, F] then v else 0
  {
    hide ValueAt, NodeAt, SmallOverlay;
    PutGet32(v);
    SmallNamesDiffer();
    PhIs(SmallOverlay(w, v, v), p);
    SmallOverlayHas(w, v, v);
    if p != [X, OVERLAY, F] {
      if ValueAt(SmallOverlay(w, v, v), p, PHANDLE).Some? {
        SmallOverlayAt(w, v, v, p, PHANDLE);
      }
      if ValueAt(SmallOverlay(w, v, v), p, LINUX_PHANDLE).Some? {
        SmallOverlayAt(w, v, v, p, LINUX_PHANDLE);
      }
    }
  }

  lemma SmallKids(w: Str, u: nat, v: nat)
    requires u < U32 && v < U32
    ensures var o, k := SmallOverlay(w, u, v), SmallFragment(w, u, v);
            && KidAt(o, X) == Some(k) && KidAt(o, LOCAL_FIXUPS) == Some(SmallFixups())
               && KidAt(o, SYMBOLS) == Some(SmallSymbols())
            && KidAt(o, FIXUPS) == None && KidAt(k, OVERLAY) == Some(SmallContent(u, v))
            && KidAt(SmallFixups(), OVERLAY) == None && KidAt(SmallSymbols(), OVERLAY) == None
            && forall n | KidAt(o, n).Some? :: n in {X, LOCAL_FIXUPS, SYMBOLS}
  {
    SmallNamesDiffer();
    var sy := SubF(SYMBOLS, SmallSymbols(), Nil);
    assert KidAt(sy, FIXUPS) == None && KidAt(sy, SYMBOLS) == Some(SmallSymbols());
    assert forall n | KidAt(sy, n).Some? :: n == SYMBOLS;
    var lo := SubF(LOCAL_FIXUPS, SmallFixups(), sy);
    assert KidAt(lo, FIXUPS) == None && KidAt(lo, SYMBOLS) == Some(SmallSymbols())
           && KidAt(lo, LOCAL_FIXUPS) == Some(SmallFixups());
    assert forall n | KidAt(lo, n).Some? :: n == LOCAL_FIXUPS || KidAt(sy, n).Some?;
  }

  lemma PlainName(n: Str)
    requires Proper(n)
    ensures Comps(n) == [n]
  {
    hide Comps;
    OneComp(n, []);
    CompsSkip([SLASH] + (n + []));
    assert n + [] == n && ([SLASH] + (n + []))[1..] == n;
    NoComps();
  }

  lemma SmallNamesPlain()
    ensures Exact(SmallNames()) && Components(SmallNames())
  {
    hide Comps, Exact;
    forall n | n in SmallNames()
      ensures '@' as int !in n && Comps(n) == [n]
    {
      PlainName(n);
    }
    ExactWithoutUnits(SmallNames());
  }

  /** What is asked of the shape of a node's content. */
  ghost predicate Shaped(k: Forest, s: set<Str>) {
    Uniq(k) && NamesIn(k, s) && Ordered(k)
  }

  lemma NodeShaped(n: Str, k: Forest, s: set<Str>)
    requires n in s && Shaped(k, s)
    ensures Shaped(SubF(n, k, Nil), s)
    ensures Shaped(Nil, s)
  {
    assert NoProps(Forest.Nil) && Ordered(Forest.Nil) && Uniq(Forest.Nil) && NamesIn(Forest.Nil, s);
  }

  lemma PropShaped(x: Str, d: Str, k: Forest, s: set<Str>)
    requires Shaped(k, s) && !HasProp(k, x)
    ensures Shaped(PropF(x, d, k), s)
  {
  }

  lemma SmallFragmentShaped(w: Str, u: nat, v: nat)
    requires u < U32 && v < U32
    ensures Shaped(SmallFragment(w, u, v), SmallNames())
  {
    hide Shaped;
    var s := SmallNames();
    EmptyShaped(s);
    PropShaped(PHANDLE, Put32(v), Nil, s);
    NodeShaped(F, WithPhandle(v, Nil), s);
    PropShaped(R, Put32(u), SubF(F, WithPhandle(v, Nil), Nil), s);
    NodeShaped(OVERLAY, SmallContent(u, v), s);
    PropShaped(TARGET_PATH, w, SubF(OVERLAY, SmallContent(u, v), Nil), s);
  }

  lemma EmptyShaped(s: set<Str>)
    ensures Shaped(Nil, s)
  {
  }

  lemma SmallFixupsShaped()
    ensures Shaped(SmallFixups(), SmallNames()) && Shaped(SmallSymbols(), SmallNames())
  {
    hide Shaped;
    var s, r := SmallNames(), PropF(R, [0, 0, 0, 0], Nil);
    EmptyShaped(s);
    PropShaped(R, [0, 0, 0, 0], Nil, s);
    NodeShaped(OVERLAY, r, s);
    NodeShaped(X, SubF(OVERLAY, r, Nil), s);
    PropShaped(L, LABEL, Nil, s);
  }

  lemma MoreShaped(n: Str, k: Forest, r: Forest, s: set<Str>)
    requires n in s && Shaped(k, s) && Shaped(r, s) && NoProps(r) && KidAt(r, n) == None
    ensures Shaped(SubF(n, k, r), s) && NoProps(SubF(n, k, r))
  {
  }

  lemma SmallShape(w: Str, u: nat, v: nat)
    requires u < U32 && v < U32
    ensures Shaped(SmallOverlay(w, u, v), SmallNames()) && Shaped(SmallBase(), SmallNames())
  {
    hide SmallFragment, SmallFixups, WithPhandle, SmallNames, Shaped, SmallSymbols;
    SmallNamesDiffer();
    SmallFragmentShaped(w, u, v);
    SmallFixupsShaped();
    BaseShaped();
    NamesThere();
    EmptyShaped(SmallNames());
    var sy := SubF(SYMBOLS, SmallSymbols(), Nil);
    MoreShaped(SYMBOLS, SmallSymbols(), Nil, SmallNames());
    MoreShaped(LOCAL_FIXUPS, SmallFixups(), sy, SmallNames());
    MoreShaped(X, SmallFragment(w, u, v), SubF(LOCAL_FIXUPS, SmallFixups(), sy), SmallNames());
  }

  lemma NamesThere()
    ensures {X, LOCAL_FIXUPS, P, SYMBOLS, OVERLAY, FIXUPS} <= SmallNames()
  {
  }

  lemma BaseShaped()
    ensures Shaped(SmallBase(), SmallNames())
  {
    hide Shaped;
    EmptyShaped(SmallNames());
    PropShaped(PHANDLE, Put32(5), Nil, SmallNames());
    NodeShaped(P, WithPhandle(5, Nil), SmallNames());
  }

  /** What libfdt finds in the overlay. */
  lemma SmallTops(w: Str, u: nat, v: nat)
    requires u < U32 && v < U32
    ensures var o, k := SmallOverlay(w, u, v), SmallFragment(w, u, v);
            && OwnName(o, X) && OwnName(o, SYMBOLS) && OwnName(k, OVERLAY)
            && HasSub(o, LOCAL_FIXUPS) && SubBody(o, LOCAL_FIXUPS) == SmallFixups()
            && !HasSub(o, FIXUPS) && HasSub(o, SYMBOLS) && SubBody(o, SYMBOLS) == SmallSymbols()
            && HasSub(o, X) && SubBody(o, X) == k
            && HasSub(k, OVERLAY) && SubName(k, OVERLAY) == OVERLAY && SubBody(k, OVERLAY) == SmallContent(u, v)
            && !HasSub(SmallFixups(), OVERLAY) && !HasSub(SmallSymbols(), OVERLAY)
  {
    hide SmallOverlay, SmallFragment, SmallNames, Shaped, OwnName, SmallFixups, SmallSymbols, SmallContent, Exact,
      HasSub, SubBody, SubName;
    var o, k, s := SmallOverlay(w, u, v), SmallFragment(w, u, v), SmallNames();
    SmallShape(w, u, v);
    SmallFragmentShaped(w, u, v);
    SmallFixupsShaped();
    SmallNamesPlain();
    NamesThere();
    SmallKids(w, u, v);
    Found(o, X, s);
    Found(o, LOCAL_FIXUPS, s);
    Found(o, FIXUPS, s);
    Found(o, SYMBOLS, s);
    Found(k, OVERLAY, s);
    Found(SmallFixups(), OVERLAY, s);
    Found(SmallSymbols(), OVERLAY, s);
  }

  lemma Found(o: Forest, n: Str, s: set<Str>)
    requires Shaped(o, s) && Exact(s) && n in s
    ensures OwnName(o, n) && (HasSub(o, n) <==> KidAt(o, n).Some?)
    ensures HasSub(o, n) ==> SubBody(o, n) == KidAt(o, n).value && SubName(o, n) == n
  {
    ExactOwn(o, n, s);
    OwnSub(o, n);
  }

  /** The names of the local fixups are those of the overlay. */
  lemma SmallFixupsOf(w: Str, u: nat, v: nat)
    requires u < U32 && v < U32
    ensures var o := SmallOverlay(w, u, v); FixupsOf(o) == SmallFixups() && Canon(o, SmallFixups()) == SmallFixups()
  {
    hide SmallOverlay, SmallFragment, HasSub, SubBody, SubName;
    SmallTops(w, u, v);
    SmallKids(w, u, v);
    var o, k, r := SmallOverlay(w, u, v), SmallFragment(w, u, v), PropF(R, [0, 0, 0, 0], Nil);
    assert KidOrNil(o, X) == k;
    hide KidOrNil, Meant;
    OneCanon(k, OVERLAY, r, R, [0, 0, 0, 0]);
    OneCanon(o, X, SubF(OVERLAY, r, Nil), R, []);
  }

  lemma OneCanon(b: Forest, n: Str, k: Forest, x: Str, d: Str)
    requires OwnName(b, n)
    ensures Canon(b, SubF(n, k, Nil)) == SubF(n, Canon(KidOrNil(b, n), k), Nil)
    ensures forall c :: Canon(c, PropF(x, d, Nil)) == PropF(x, d, Nil)
  {
    assert forall c: Forest :: Canon(c, Nil) == Nil;
  }

  lemma SmallLists(w: Str, u: nat, v: nat, p: Path, x: Str)
    requires u < U32 && v < U32
    ensures Lists(SmallOverlay(w, u, v), p, x) == if p == [X, OVERLAY] && x == R then Some([0, 0, 0, 0]) else None
  {
    hide ValueAt, NodeAt, SmallOverlay, SmallFixups, Bindings;
    SmallFixupsOf(w, u, v);
    SmallFixupsEntries([], [X], [X, OVERLAY]);
    SmallFixupsHas();
    if ValueAt(SmallFixups(), p, x).Some? {
      ValueListed(SmallFixups(), [], p, x);
      assert [] + p == p;
    }
  }

  lemma SmallFixupsHas()
    ensures ValueAt(SmallFixups(), [X, OVERLAY], R) == Some([0, 0, 0, 0])
  {
    hide NodeAt;
    Grandchild(SmallFixups(), X, OVERLAY);
  }

  /** Where no name stands for another, the nodes that libfdt looks for are found. */
  lemma ExactSpecials(o: Forest, s: set<Str>)
    requires NamesIn(o, s) && Exact(s) && {LOCAL_FIXUPS, FIXUPS, OVERLAY} <= s
    ensures Specials(o)
  {
    hide Exact, NamesIn, OwnName;
    ExactOwn(o, LOCAL_FIXUPS, s);
    ExactOwn(o, FIXUPS, s);
    forall f | KidAt(o, f).Some?
      ensures OwnName(KidAt(o, f).value, OVERLAY)
    {
      KidNames(o, f, s);
      ExactOwn(KidAt(o, f).value, OVERLAY, s);
    }
  }

  lemma SmallSound(w: Str)
    ensures Sound(SmallOverlay(w, 1, 1)) && FixupsSound(SmallOverlay(w, 1, 1))
  {
    hide ValueAt, NodeAt, SmallOverlay, SmallFixups, Ph, ListsSound, PhandlesSound, FixupSound, Components, Specials,
      Shaped, Uniq, Canon, SmallNames, Exact, NamesIn;
    var o := SmallOverlay(w, 1, 1);
    SmallShape(w, 1, 1);
    SmallNamesPlain();
    SmallFixupsShaped();
    ShapedIs(o, SmallNames());
    ShapedIs(SmallFixups(), SmallNames());
    NamesThere();
    ExactSpecials(o, SmallNames());
    SmallFixupsOf(w, 1, 1);
    forall p
      ensures Ph(o, p) == if p == [X, OVERLAY, F] then 1 else 0
    {
      SmallPh(w, 1, p);
    }
    forall p, x
      ensures ListsSound(o, p, x) && PhandlesSound(o, p, x)
    {
      SmallListsSound(w, p, x);
      SmallPhandles(w, p, x);
    }
    forall y
      ensures FixupSound(o, y)
    {
      SmallFixupSound(w, y);
    }
  }

  lemma ShapedIs(o: Forest, s: set<Str>)
    requires Shaped(o, s)
    ensures Uniq(o) && NamesIn(o, s) && Ordered(o)
  {
  }

  lemma SmallListsSound(w: Str, p: Path, x: Str)
    ensures ListsSound(SmallOverlay(w, 1, 1), p, x)
  {
    hide ValueAt, NodeAt, SmallOverlay;
    SmallNamesDiffer();
    SmallLists(w, 1, 1, p, x);
    var l: Str := [0, 0, 0, 0];
    assert l[4..] == [] && Spread(l);
  }

  lemma NoFixup(w: Str, y: Str)
    ensures ValueAt(SmallOverlay(w, 1, 1), [FIXUPS], y) == None
  {
    hide ValueAt, NodeAt, SmallOverlay;
    SmallNamesDiffer();
    assert [FIXUPS][0] == FIXUPS && [FIXUPS] != [X] && [FIXUPS] != [SYMBOLS];
    if ValueAt(SmallOverlay(w, 1, 1), [FIXUPS], y).Some? {
      SmallOverlayAt(w, 1, 1, [FIXUPS], y);
    }
  }

  lemma SmallFixupSound(w: Str, y: Str)
    ensures FixupSound(SmallOverlay(w, 1, 1), y)
  {
    hide ValueAt, SmallOverlay, Lists;
    NoFixup(w, y);
  }

  lemma SmallPhandles(w: Str, p: Path, x: Str)
    ensures PhandlesSound(SmallOverlay(w, 1, 1), p, x)
  {
    hide ValueAt, NodeAt, SmallOverlay, Ph;
    SmallNamesDiffer();
    SmallPh(w, 1, p);
    SmallOverlayHas(w, 1, 1);
    PutGet32(1);
    if IsPhandle(x) && ValueAt(SmallOverlay(w, 1, 1), p, x).Some? {
      SmallOverlayAt(w, 1, 1, p, x);
      PhIs(SmallOverlay(w, 1, 1), p);
    }
  }

  lemma SmallRef(w: Str)
    ensures IsRef(SmallOverlay(w, 1, 1), [X, OVERLAY], R, 0)
            && Cell(SmallOverlay(w, 1, 1), [X, OVERLAY], R, 0) == Some(1)
  {
    hide ValueAt, NodeAt, SmallOverlay;
    SmallOverlayHas(w, 1, 1);
    SmallLists(w, 1, 1, [X, OVERLAY], R);
    PutGet32(1);
    var l: Str := [0, 0, 0, 0];
    assert Get32(l, 0) == 0;
  }

  lemma SmallLabel(w: Str)
    ensures LabelsSound(SmallOverlay(w, 1, 1)) && Labels(SmallOverlay(w, 1, 1)) == Nil
    ensures ValueAt(SmallOverlay(w, 1, 1), [SYMBOLS], L) == Some(LABEL) && IsPathOf(LABEL, [X, OVERLAY, F])
  {
    hide ValueAt, NodeAt, SmallOverlay, IsPathOf;
    SmallNamesDiffer();
    SmallOverlayHas(w, 1, 1);
    SmallTops(w, 1, 1);
    LabelPath();
    forall y | ValueAt(SmallOverlay(w, 1, 1), [SYMBOLS], y).Some?
      ensures !IsPhandle(y)
    {
      SmallOverlayAt(w, 1, 1, [SYMBOLS], y);
      assert [SYMBOLS][0] == SYMBOLS && [X][0] == X;
    }
  }

  lemma LabelPath()
    ensures IsPathOf(LABEL, [X, OVERLAY, F])
  {
    hide Comps, CStr, Word;
    var more := [SLASH] + OVERLAY + ([SLASH] + F);
    var p := [SLASH] + (X + more);
    assert LABEL == p + [0] + [];
    CStrStops(p, []);
    assert p[1..] == X + more;
    WordStops(X, more);
    assert p[1..2] == X && p[2..14] == IN_OVERLAY && p[15..] == F && |p| == 16;
    PlainName(F);
  }

  // ----- The overlay is shifted, and its references with it -----

  lemma SmallFragmentShifted(w: Str)
    ensures Shift(SmallFragment(w, 1, 1), 5) == Ok(SmallFragment(w, 1, 6))
  {
    hide AddOffset;
    SmallNamesDiffer();
    NoOffsets();
    PhandleShifted();
    var g := SubF(F, WithPhandle(1, Nil), Nil);
    assert ShiftSubs(g, 5) == Ok(SubF(F, WithPhandle(6, Nil), Nil));
    assert Shift(SmallContent(1, 1), 5) == Ok(SmallContent(1, 6));
    hide SmallContent;
    assert ShiftSubs(SubF(OVERLAY, SmallContent(1, 1), Nil), 5) == Ok(SubF(OVERLAY, SmallContent(1, 6), Nil));
    assert !HasProp(SmallFragment(w, 1, 1), PHANDLE) && !HasProp(SmallFragment(w, 1, 1), LINUX_PHANDLE);
    assert ShiftSubs(SmallFragment(w, 1, 1), 5) == Ok(SmallFragment(w, 1, 6));
  }

  lemma SmallShifted(w: Str)
    ensures Shift(SmallOverlay(w, 1, 1), 5) == Ok(SmallOverlay(w, 1, 6))
  {
    hide AddOffset, SmallFragment, SmallFixups, SmallSymbols;
    NoOffsets();
    SmallFragmentShifted(w);
    SmallFixupsShifted();
    var sy := SubF(SYMBOLS, SmallSymbols(), Nil);
    var lo := SubF(LOCAL_FIXUPS, SmallFixups(), sy);
    assert ShiftSubs(sy, 5) == Ok(sy);
    assert ShiftSubs(lo, 5) == Ok(lo);
    assert !HasProp(lo, PHANDLE) && !HasProp(lo, LINUX_PHANDLE);
    assert ShiftSubs(SmallOverlay(w, 1, 1), 5) == Ok(SmallOverlay(w, 1, 6));
  }

  lemma NoOffsets()
    ensures forall k, x | !HasProp(k, x) :: AddOffset(k, x, 5) == Ok(k)
  {
  }

  lemma PhandleShifted()
    ensures Shift(WithPhandle(1, Nil), 5) == Ok(WithPhandle(6, Nil))
  {
    PutGet32(1);
    SmallNamesDiffer();
  }

  lemma SmallFixupsShifted()
    ensures Shift(SmallFixups(), 5) == Ok(SmallFixups()) && Shift(SmallSymbols(), 5) == Ok(SmallSymbols())
  {
    hide AddOffset;
    SmallNamesDiffer();
    NoOffsets();
    var r := PropF(R, [0, 0, 0, 0], Nil);
    assert Shift(r, 5) == Ok(r);
    assert Shift(SubF(OVERLAY, r, Nil), 5) == Ok(SubF(OVERLAY, r, Nil));
  }

  lemma SmallCell(c: nat, d: nat, g: nat -> nat)
    requires c < U32 && d < U32 && g(c) == d
    ensures MapCells(Put32(c), [0, 0, 0, 0], g) == Some(Put32(d))
  {
    var l: Str := [0, 0, 0, 0];
    PutGet32(c);
    assert Get32(l, 0) == 0 && l[4..] == [];
    assert Overwrite(Put32(c), 0, Put32(d)) == Put32(d);
  }

  lemma SmallRewritten(c: nat, d: nat, v: nat, g: nat -> nat)
    requires c < U32 && d < U32 && v < U32 && g(c) == d
    ensures Rewrite(SmallContent(c, v), PropF(R, [0, 0, 0, 0], Nil), g) == Ok(SmallContent(d, v))
  {
    hide MapCells;
    SmallCell(c, d, g);
  }

  lemma OneRewrite(t: Forest, n: Str, k: Forest, g: nat -> nat)
    requires HasSub(t, n) && Rewrite(SubBody(t, n), k, g).Ok?
    ensures Rewrite(t, SubF(n, k, Nil), g) == Ok(PutSub(t, n, Rewrite(SubBody(t, n), k, g).v))
  {
    hide PutSub;
    assert RewriteSubs(PutSub(t, n, Rewrite(SubBody(t, n), k, g).v), Nil, g).Ok?;
  }

  /** The reference in r follows. */
  lemma SmallFollowed(w: Str, c: nat, d: nat, v: nat, g: nat -> nat)
    requires c < U32 && d < U32 && v < U32 && g(c) == d
    ensures RewriteLocal(SmallOverlay(w, c, v), g) == Ok(SmallOverlay(w, d, v))
  {
    hide MapCells, SmallContent, Rewrite;
    SmallRewritten(c, d, v, g);
    SmallTops(w, c, v);
    var r, e := PropF(R, [0, 0, 0, 0], Nil), SubF(OVERLAY, PropF(R, [0, 0, 0, 0], Nil), Nil);
    OneRewrite(SmallFragment(w, c, v), OVERLAY, r, g);
    assert PutSub(SmallFragment(w, c, v), OVERLAY, SmallContent(d, v)) == SmallFragment(w, d, v);
    OneRewrite(SmallOverlay(w, c, v), X, e, g);
    assert PutSub(SmallOverlay(w, c, v), X, SmallFragment(w, d, v)) == SmallOverlay(w, d, v);
  }

  lemma SmallResolved(b: Forest, w: Str)
    requires MaxPhandle(b) == 5
    ensures Resolved(b, SmallOverlay(w, 1, 1)) == Ok(SmallOverlay(w, 6, 6))
  {
    hide Shift, RewriteLocal, MaxPhandle, SmallOverlay;
    SmallShifted(w);
    SmallFollowed(w, 1, 6, 6, Adding(5));
    SmallTops(w, 6, 6);
  }

  lemma OnlyFragment(w: Str, f: Str)
    requires NodeAt(SmallOverlay(w, 1, 1), [f, OVERLAY]).Some?
    ensures f == X
  {
    hide NodeAt, SmallOverlay;
    SmallKids(w, 1, 1);
    Grandchild(SmallOverlay(w, 1, 1), f, OVERLAY);
  }

  // ----- No conflict -----

  lemma SmallMax()
    ensures MaxPhandle(SmallBase()) == 5
  {
    PutGet32(5);
    SmallNamesDiffer();
    assert Phandle(WithPhandle(5, Nil)) == 5;
  }

  lemma SmallTarget()
    ensures Target(SmallBase(), SmallFragment(TO_P, 6, 6)) == Ok([P])
            && NodeAt(SmallBase(), [P]) == Some(WithPhandle(5, Nil))
    ensures PathNames(SmallBase(), CStr(TO_P)) == Ok([P]) && Into(SmallBase(), [P]) == [P]
  {
    SmallNamesDiffer();
    LeadsToP();
    assert NodeNameEq(P, P) by { assert P[..1] == P; }
    KidIsNode(SmallBase(), P);
    assert Resolve(WithPhandle(5, Nil), []) == Some([]) && [P][1..] == [] && [P] + [] == [P];
    assert Resolve(SmallBase(), [P]) == Some([P]);
    assert Meant(SmallBase(), P) == P && Into(KidOrNil(SmallBase(), P), []) == [];
  }

  /** What becomes of the overlay when its one fragment has had its turn. */
  lemma SmallTurns(b: Forest, w: Str, u: nat, v: nat)
    requires u < U32 && v < U32
    ensures var o := SmallOverlay(w, u, v); Prevent(b, o, o) == PreventFragment(b, o, X, SmallFragment(w, u, v))
  {
    hide PreventNode, Target, SmallContent, NodeAt, HasSub, SubBody, SubName, SmallFragment;
    SmallTops(w, u, v);
    var o, sy := SmallOverlay(w, u, v), SubF(SYMBOLS, SmallSymbols(), Nil);
    var t := PreventFragment(b, o, X, SmallFragment(w, u, v));
    if t.Ok? {
      assert PreventFragment(b, t.v, LOCAL_FIXUPS, SmallFixups()) == t
             && PreventFragment(b, t.v, SYMBOLS, SmallSymbols()) == t;
      hide PreventFragment, SmallFixups, SmallSymbols;
      assert Prevent(b, t.v, Nil) == t && Prevent(b, t.v, sy) == t;
      assert Prevent(b, t.v, SubF(LOCAL_FIXUPS, SmallFixups(), sy)) == t;
    }
  }

  /** The overlay's nodes meet no base node but the target, which takes no phandle. */
  lemma SmallPrevented()
    ensures Prevent(SmallBase(), SmallOverlay(TO_P, 6, 6), SmallOverlay(TO_P, 6, 6)) == Ok(SmallOverlay(TO_P, 6, 6))
  {
    hide Target, NodeAt, SmallBase, SmallOverlay, SmallFragment, HasSub, SubBody, SubName, PreventNode;
    SmallTarget();
    var o := SmallOverlay(TO_P, 6, 6);
    SmallOverlayHas(TO_P, 6, 6);
    SmallTops(TO_P, 6, 6);
    SmallKids(TO_P, 6, 6);
    SmallTurns(SmallBase(), TO_P, 6, 6);
    NoneMet(o);
  }

  lemma NoneMet(o: Forest)
    requires NodeAt(o, [X, OVERLAY]) == Some(SmallContent(6, 6))
    ensures PreventNode(o, [X, OVERLAY], WithPhandle(5, Nil), SmallContent(6, 6)) == Ok(o)
  {
    hide NodeAt;
    SmallNamesDiffer();
    assert Phandle(SmallContent(6, 6)) == 0;
  }

  lemma SmallMerged()
    ensures MergeAll(SmallBase(), SmallOverlay(TO_P, 6, 6)).Ok?
  {
    SmallTarget();
    SmallMerges(SmallBase(), TO_P, 6, 6, [P]);
  }

  /** The merge succeeds if the one fragment has a target. */
  lemma SmallMerges(b: Forest, w: Str, u: nat, v: nat, t: Path)
    requires u < U32 && v < U32 && Target(b, SmallFragment(w, u, v)) == Ok(t) && NodeAt(b, t).Some?
    ensures MergeAll(b, SmallOverlay(w, u, v)).Ok?
  {
    hide Target, Apply, PutAt, NodeAt, HasSub, SubBody, SmallFragment, SmallFixups, SmallSymbols;
    SmallTops(w, u, v);
    assert forall c :: MergeAll(c, SubF(SYMBOLS, SmallSymbols(), Nil)) == MergeAll(c, Nil) == Ok(c);
    assert forall c :: MergeAll(c, SubF(LOCAL_FIXUPS, SmallFixups(), SubF(SYMBOLS, SmallSymbols(), Nil))).Ok?;
  }

  lemma SmallApplies()
    ensures Applies(SmallBase(), SmallOverlay(TO_P, 1, 1))
    ensures Final(SmallBase(), SmallOverlay(TO_P, 1, 1)) == SmallOverlay(TO_P, 6, 6)
  {
    hide Uniq, PhandlesApart, Sound, FixupsSound, SmallBase, SmallOverlay, Resolved, Prevent, MergeAll;
    SmallBaseSound();
    SmallSound(TO_P);
    SmallMax();
    SmallResolved(SmallBase(), TO_P);
    SmallPrevented();
    SmallMerged();
  }

  // ----- The guard -----

  function SmallGoals(): Goals {
    map[X := [P]]
  }

  /** The one fragment's target is given by its target-path. */
  lemma SmallLeads(b: Forest, w: Str, N: Names)
    requires PathAims(b, SmallOverlay(w, 1, 1), SmallGoals(), N, CStr(w), [P])
    ensures TargetLeads(b, SmallOverlay(w, 1, 1), SmallGoals(), N, X, [P])
            && !Pointed(b, SmallOverlay(w, 1, 1), SmallGoals(), X)
    ensures ValueAt(SmallOverlay(w, 1, 1), [X], TARGET) == None && TargetPath(SmallOverlay(w, 1, 1), X) == CStr(w)
  {
    hide ValueAt, NodeAt, SmallOverlay, Lists, PathAims, CStr;
    SmallNamesDiffer();
    SmallTops(w, 1, 1);
    SmallOverlayHas(w, 1, 1);
    SmallLists(w, 1, 1, [X], TARGET);
    SmallLists(w, 1, 1, [X], TARGET_PATH);
    assert Data(SmallFragment(w, 1, 1), TARGET_PATH) == Some(w);
    NoLabels(SmallOverlay(w, 1, 1), Nil, X, TARGET);
    NoLabels(SmallOverlay(w, 1, 1), Nil, X, TARGET_PATH);
    NoAim(b, SmallOverlay(w, 1, 1), X, TARGET, [P]);
    if ValueAt(SmallOverlay(w, 1, 1), [X], TARGET).Some? {
      SmallOverlayAt(w, 1, 1, [X], TARGET);
    }
  }

  lemma SmallGuarded()
    ensures var b, o, N := SmallBase(), SmallOverlay(TO_P, 1, 1), Everywhere(SmallNames());
            Guarded(b, o, SmallGoals(), N) && BothGoals(b, o, SmallGoals(), SmallNames())
  {
    hide ValueAt, NodeAt, SmallOverlay, SmallBase, TargetLeads, Suits, CStr, Comps, Exact, PathNames, Along, Into,
      Pointed, Components, NamesIn;
    var b, o, N := SmallBase(), SmallOverlay(TO_P, 1, 1), Everywhere(SmallNames());
    SmallTarget();
    LeadsToP();
    ExactAlong(b, [P], SmallNames());
    SmallLeads(b, TO_P, N);
    SmallNamesPlain();
    SmallOverlayHas(TO_P, 1, 1);
    ContentNames();
    ExactSuits(NodeOr(b, [P]), SmallContent(1, 1), SmallNames());
    EverywhereBelow(SmallNames(), [P]);
    forall f | NodeAt(o, [f, OVERLAY]).Some?
      ensures f == X
    {
      OnlyFragment(TO_P, f);
    }
  }

  lemma ContentNames()
    ensures NamesIn(SmallContent(1, 1), SmallNames())
  {
  }

  /** No other node of a fragment sets the properties that the overlay's nodes set. */
  lemma SmallSole(b: Forest, w: Str, v: nat)
    requires 0 < v < U32 && Applies(b, SmallOverlay(w, 1, 1))
             && Final(b, SmallOverlay(w, 1, 1)) == SmallOverlay(w, v, v)
    ensures var o := SmallOverlay(w, v, v);
            && Author(b, o, MergedPath(b, o, [X, OVERLAY, F]), PHANDLE) == Some([X, OVERLAY, F])
            && Author(b, o, MergedPath(b, o, [X, OVERLAY]), R) == Some([X, OVERLAY])
  {
    hide ValueAt, NodeAt, SmallOverlay, Applies, Author, MergedPath, Final;
    SmallNamesDiffer();
    SmallOverlayHas(w, v, v);
    forall q | InFragment(q)
      ensures ValueAt(SmallOverlay(w, v, v), q, PHANDLE).Some? ==> q == [X, OVERLAY, F]
      ensures ValueAt(SmallOverlay(w, v, v), q, R).Some? ==> q == [X, OVERLAY]
    {
      if ValueAt(SmallOverlay(w, v, v), q, PHANDLE).Some? {
        SmallOverlayAt(w, v, v, q, PHANDLE);
      }
      if ValueAt(SmallOverlay(w, v, v), q, R).Some? {
        SmallOverlayAt(w, v, v, q, R);
      }
    }
    SoleAuthor(b, SmallOverlay(w, 1, 1), [X, OVERLAY, F], PHANDLE);
    SoleAuthor(b, SmallOverlay(w, 1, 1), [X, OVERLAY], R);
  }

  lemma SmallAim()
    ensures Aim(SmallBase(), SmallGoals(), [X, OVERLAY, F]) == [P, F]
    ensures Ph(SmallBase(), [P, F]) == 0
  {
    hide Ph;
    SmallNamesDiffer();
    SmallTarget();
    SmallBaseSound();
    assert [X, OVERLAY, F][2..] == [F] && Into(WithPhandle(5, Nil), [F]) == [F] by {
      assert [F][1..] == [];
    }
    assert NodeOr(SmallBase(), [P]) == WithPhandle(5, Nil);
    assert [P] + [F] == [P, F];
  }

  lemma SmallNoConflict()
    ensures NoConflict(SmallBase(), SmallOverlay(TO_P, 1, 1), SmallGoals())
  {
    hide Ph, Aim, SmallOverlay, SmallBase;
    SmallAim();
    forall n | Ph(SmallOverlay(TO_P, 1, 1), n) != 0
      ensures n == [X, OVERLAY, F]
    {
      SmallPh(TO_P, 1, n);
    }
  }

  lemma SmallBoth()
    ensures BothFit(SmallBase(), SmallOverlay(TO_P, 1, 1), SmallGoals(), SmallNames())
  {
    hide ValueAt, SmallOverlay, SmallBase, FdtEntries, Components, Ordered, NamesIn, Exact, BothGoals, NoConflict,
      Shaped, SmallNames, SmallGoals;
    SmallNamesDiffer();
    SmallShape(TO_P, 1, 1);
    ShapedIs(SmallBase(), SmallNames());
    ShapedIs(SmallOverlay(TO_P, 1, 1), SmallNames());
    SmallNamesPlain();
    NamesThere();
    SmallNoConflict();
    SmallGuarded();
    assert [SYMBOLS][0] == SYMBOLS && [SYMBOLS] != [P];
    forall y
      ensures ValueAt(SmallBase(), [SYMBOLS], y).None? && ValueAt(SmallOverlay(TO_P, 1, 1), [FIXUPS], y).None?
    {
      SmallBaseAt([SYMBOLS], y);
      NoFixup(TO_P, y);
    }
  }

  /**
   * All the hypotheses of the theorems about both engines hold of the example together, and it has a reference that
   * follows.
   */
  lemma AllHypothesesMeet()
    ensures var b, o, g, s, n := SmallBase(), SmallOverlay(TO_P, 1, 1), SmallGoals(), SmallNames(), [X, OVERLAY, F];
            && Applies(b, o) && Guarded(b, o, g, Everywhere(s)) && BothFit(b, o, g, s) && LabelsSound(o)
            && IsRef(o, [X, OVERLAY], R, 0) && Ph(o, n) == 1 && Cell(o, [X, OVERLAY], R, 0) == Some(1)
            && Author(b, Final(b, o), MergedPath(b, Final(b, o), [X, OVERLAY]), R) == Some([X, OVERLAY])
               && Follows(b, o, n)
  {
    hide Applies, Guarded, BothFit, SmallOverlay, SmallBase, SmallNames, SmallGoals, Author, LabelsSound, Final,
      MergedPath, MatchedPh, Ph, Listed, IsPathOf;
    SmallApplies();
    SmallGuarded();
    SmallBoth();
    SmallRef(TO_P);
    SmallLabel(TO_P);
    SmallPh(TO_P, 1, [X, OVERLAY, F]);
    SmallSole(SmallBase(), TO_P, 6);
  }
}
