/** overlay_merge: all fragments of a prepared overlay merged into the base, one after the other. */
module Merged {
  import opened Bytes
  import opened Tree
  import opened Positions
  import opened Merge
  import opened Sem
  import opened Writers
  import opened Overlay
  import opened OverlaySteps
  import opened Refs
  import opened Conflicts
  import opened Lookups

  ghost predicate PhandlesApart(b: Forest) {
    forall p, q | Ph(b, p) != 0 && Ph(b, p) == Ph(b, q) :: p == q
  }

  // ----- One fragment -----

  /** The fragment with content k has something to merge, and the base, as it is now, has its target. */
  predicate Merges(c: Forest, k: Forest) {
    HasSub(k, OVERLAY) && Target(c, k).Ok? && NodeAt(c, Target(c, k).v).Some?
  }

  /** c with the overlay content ov merged into the node at t. */
  function MergeIn(c: Forest, t: Path, ov: Forest): Forest
    requires NodeAt(c, t).Some?
  {
    PutAt(c, t, Apply(NodeAt(c, t).value, ov))
  }

  /** The base after the fragment with content k. */
  function Step(c: Forest, k: Forest): Forest {
    if Merges(c, k) then MergeIn(c, Target(c, k).v, SubBody(k, OVERLAY)) else c
  }

  /** The path in its __overlay__ node of the last node of the fragment that sets property x at path p of the base. */
  function StepWriter(c: Forest, k: Forest, p: Path, x: Str): Option<Path> {
    if Merges(c, k) && Target(c, k).v <= p then
      Writer(NodeAt(c, Target(c, k).v).value, SubBody(k, OVERLAY), p[|Target(c, k).v|..], x)
    else None
  }

  /** A node of the fragment goes to path p. */
  predicate StepReaches(c: Forest, k: Forest, p: Path) {
    && Merges(c, k) && Target(c, k).v <= p
    && Reached(NodeAt(c, Target(c, k).v).value, SubBody(k, OVERLAY), p[|Target(c, k).v|..])
  }

  /** The path in the base where what is at path r below the fragment's __overlay__ node goes. */
  function StepPath(c: Forest, k: Forest, r: Path): Path {
    if Merges(c, k) then Target(c, k).v + Went(NodeAt(c, Target(c, k).v).value, SubBody(k, OVERLAY), r) else []
  }

  lemma BelowValue(c: Forest, t: Path, p: Path, x: Str)
    requires NodeAt(c, t).Some? && t <= p
    ensures ValueAt(NodeAt(c, t).value, p[|t|..], x) == ValueAt(c, p, x)
    ensures NodeAt(NodeAt(c, t).value, p[|t|..]) == NodeAt(c, p)
  {
    NodeBelow(c, t, p);
  }

  /** One fragment: at each path its last value there, or else what there was. */
  lemma StepWrites(c: Forest, k: Forest, p: Path, x: Str)
    requires Uniq(k) && OwnName(k, OVERLAY)
    ensures ValueAt(Step(c, k), p, x) == Authored(SubBodyOrNil(k), StepWriter(c, k, p, x), x, ValueAt(c, p, x))
    ensures NodeAt(Step(c, k), p).Some? <==> NodeAt(c, p).Some? || StepReaches(c, k, p)
  {
    hide Apply, PutAt, ValueAt, Uniq, NodeAt, Target, Writer, Reached;
    if Merges(c, k) {
      var t, ov := Target(c, k).v, SubBody(k, OVERLAY);
      OwnSub(k, OVERLAY);
      KidUniq(k, OVERLAY);
      PutAtValue(c, t, Apply(NodeAt(c, t).value, ov), p, x);
      if t <= p {
        ApplyWrites(NodeAt(c, t).value, ov, p[|t|..], x);
        BelowValue(c, t, p, x);
      }
    }
  }

  /** What the __overlay__ node contains. */
  function SubBodyOrNil(k: Forest): Forest {
    if HasSub(k, OVERLAY) then SubBody(k, OVERLAY) else Nil
  }

  lemma StepUniq(c: Forest, k: Forest)
    requires Uniq(c) && Uniq(k) && OwnName(k, OVERLAY)
    ensures Uniq(Step(c, k))
  {
    hide Apply, PutAt, Uniq, NodeAt, Target;
    if Merges(c, k) {
      OwnSub(k, OVERLAY);
      KidUniq(k, OVERLAY);
      PutAtUniq(c, Target(c, k).v, Nil);
      ApplyUniq(NodeAt(c, Target(c, k).v).value, SubBody(k, OVERLAY));
      PutAtUniq(c, Target(c, k).v, Apply(NodeAt(c, Target(c, k).v).value, SubBody(k, OVERLAY)));
    }
  }

  // ----- All fragments -----

  /** The base when overlay_merge comes to the fragment f. */
  function Before(c: Forest, frags: Forest, f: Str): Forest
    decreases frags
  {
    match frags
    case Nil => c
    case SubF(g, k, r) => if g == f then c else Before(Step(c, k), r, f)
    case _ => Before(c, frags.rest, f)
  }

  /** The overlay path of the last node that sets property x at path p. */
  function Author(c: Forest, frags: Forest, p: Path, x: Str): Option<Path>
    decreases frags
  {
    match frags
    case Nil => None
    case SubF(f, k, r) =>
      (match Author(Step(c, k), r, p, x)
       case Some(n) => Some(n)
       case None => Under(f, Under(OVERLAY, StepWriter(c, k, p, x))))
    case _ => Author(c, frags.rest, p, x)
  }

  /** A node of one of the fragments goes to path p. */
  predicate Arrives(c: Forest, frags: Forest, p: Path)
    decreases frags
  {
    match frags
    case Nil => false
    case SubF(_, k, r) => Arrives(Step(c, k), r, p) || StepReaches(c, k, p)
    case _ => Arrives(c, frags.rest, p)
  }

  lemma StepIs(c: Forest, f: Str, k: Forest, r: Forest)
    requires MergeAll(c, SubF(f, k, r)).Ok?
    ensures MergeAll(c, SubF(f, k, r)) == MergeAll(Step(c, k), r)
    ensures HasSub(k, OVERLAY) ==> Merges(c, k)
  {
  }

  ghost predicate AllOwn(frags: Forest) {
    forall f | KidAt(frags, f).Some? :: OwnName(KidAt(frags, f).value, OVERLAY)
  }

  lemma OwnRest(frags: Forest)
    requires Uniq(frags) && AllOwn(frags) && !frags.Nil?
    ensures Uniq(frags.rest) && AllOwn(frags.rest)
    ensures frags.SubF? ==> Uniq(frags.body) && OwnName(frags.body, OVERLAY) && KidAt(frags.rest, frags.name) == None
  {
    hide Meant;
    if frags.SubF? {
      assert KidAt(frags, frags.name) == Some(frags.body);
      assert forall f | KidAt(frags.rest, f).Some? :: f != frags.name && KidAt(frags, f) == KidAt(frags.rest, f);
    } else {
      assert forall f :: KidAt(frags, f) == KidAt(frags.rest, f);
    }
  }

  lemma ThroughKid(o: Forest, f: Str)
    ensures NodeAt(o, [f, OVERLAY]) == match KidAt(o, f) case Some(k) => KidAt(k, OVERLAY) case None => None
  {
    KidIsNode(o, f);
    NodeExtend(o, [f], OVERLAY);
    assert [f] + [OVERLAY] == [f, OVERLAY];
  }

  /** The value in the fragment's __overlay__ node is one of the overlay. */
  lemma FragmentValue(o: Forest, f: Str, k: Forest, r: Path, x: Str)
    requires KidAt(o, f) == Some(k) && OwnName(k, OVERLAY)
    ensures ValueAt(SubBodyOrNil(k), r, x) == ValueAt(o, [f, OVERLAY] + r, x)
    ensures HasSub(k, OVERLAY) ==> NodeAt(o, [f, OVERLAY]) == Some(SubBody(k, OVERLAY))
                                   && NodeAt(SubBody(k, OVERLAY), r) == NodeAt(o, [f, OVERLAY] + r)
    ensures !HasSub(k, OVERLAY) ==> NodeAt(o, [f, OVERLAY]) == None && NodeAt(o, [f, OVERLAY] + r) == None
  {
    OwnSub(k, OVERLAY);
    ThroughKid(o, f);
    assert ([f, OVERLAY] + r)[2..] == r;
    if HasSub(k, OVERLAY) {
      NodeBelow(o, [f, OVERLAY], [f, OVERLAY] + r);
    } else {
      NilAt(r, x);
      NoneBelow(o, [f, OVERLAY], [f, OVERLAY] + r);
    }
  }

  /**
   * overlay_merge: at each path the value of the last overlay node that sets it there, or else the base's, and no other
   * node. o is the overlay, frags what is left of it.
   */
  lemma {:induction false} MergeAllWrites(c: Forest, o: Forest, frags: Forest, p: Path, x: Str)
    requires MergeAll(c, frags).Ok? && Uniq(frags) && AllOwn(frags)
    requires forall f | KidAt(frags, f).Some? :: KidAt(o, f) == KidAt(frags, f)
    ensures ValueAt(MergeAll(c, frags).v, p, x) == Authored(o, Author(c, frags, p, x), x, ValueAt(c, p, x))
    ensures NodeAt(MergeAll(c, frags).v, p).Some? <==> NodeAt(c, p).Some? || Arrives(c, frags, p)
    ensures Uniq(c) ==> Uniq(MergeAll(c, frags).v)
    decreases frags
  {
    hide StepWriter, StepReaches, Step, Merges, ValueAt, NodeAt, Target, HasSub, AllOwn, OwnName, MergeAll, Uniq,
      SubBodyOrNil;
    match frags
    case Nil => NothingLeft(c);
    case SubF(f, k, r) =>
      OwnRest(frags);
      StepIs(c, f, k, r);
      StepWrites(c, k, p, x);
      assert KidAt(frags, f) == Some(k);
      KidsRest(frags);
      MergeAllWrites(Step(c, k), o, r, p, x);
      var w := StepWriter(c, k, p, x);
      if w.Some? {
        FragmentValue(o, f, k, w.value, x);
        assert [f] + ([OVERLAY] + w.value) == [f, OVERLAY] + w.value;
      }
      if Uniq(c) {
        StepUniq(c, k);
      }
    case NopF(r) =>
      OwnRest(frags);
      KidsRest(frags);
      PassOver(c, frags);
      MergeAllWrites(c, o, r, p, x);
    case PropF(_, _, r) =>
      OwnRest(frags);
      KidsRest(frags);
      PassOver(c, frags);
      MergeAllWrites(c, o, r, p, x);
  }

  lemma NothingLeft(c: Forest)
    ensures MergeAll(c, Nil) == Ok(c)
  {
  }

  lemma PassOver(c: Forest, frags: Forest)
    requires frags.NopF? || frags.PropF?
    ensures MergeAll(c, frags) == MergeAll(c, frags.rest)
  {
  }

  lemma KidsRest(frags: Forest)
    requires Uniq(frags) && !frags.Nil?
    ensures forall f | KidAt(frags.rest, f).Some? :: KidAt(frags, f) == KidAt(frags.rest, f)
  {
  }

  // ----- Who wrote a value -----

  /** The path in the result that overlay path p, which is in a fragment, is merged into. */
  function MergedPath(b: Forest, o: Forest, p: Path): Path {
    if |p| >= 2 && KidAt(o, p[0]).Some? then StepPath(Before(b, o, p[0]), KidAt(o, p[0]).value, p[2..]) else []
  }

  /** p is in the __overlay__ node of a fragment. */
  predicate InFragment(p: Path) {
    |p| >= 2 && p[1] == OVERLAY
  }

  /** frags is what is left of o when the base b has become c. */
  ghost predicate Tail(b: Forest, o: Forest, c: Forest, frags: Forest) {
    forall f | KidAt(frags, f).Some? :: KidAt(o, f) == KidAt(frags, f) && Before(c, frags, f) == Before(b, o, f)
  }

  /** The base once the first thing in frags, if it is a fragment, has been merged. */
  function After(c: Forest, frags: Forest): Forest {
    if frags.SubF? then Step(c, frags.body) else c
  }

  lemma TailRest(b: Forest, o: Forest, c: Forest, frags: Forest)
    requires Tail(b, o, c, frags) && Uniq(frags) && !frags.Nil?
    ensures Tail(b, o, After(c, frags), frags.rest)
    ensures frags.SubF? ==> KidAt(o, frags.name) == Some(frags.body) && Before(b, o, frags.name) == c
  {
    hide Step;
    if frags.SubF? {
      assert KidAt(frags, frags.name) == Some(frags.body);
    }
    forall f | KidAt(frags.rest, f).Some?
      ensures KidAt(o, f) == KidAt(frags.rest, f) && Before(After(c, frags), frags.rest, f) == Before(b, o, f)
    {
      assert KidAt(frags, f) == KidAt(frags.rest, f) && Before(c, frags, f) == Before(After(c, frags), frags.rest, f);
    }
  }

  /** An author is a node of a fragment that goes where it writes. */
  lemma {:induction false} AuthorIs(b: Forest, o: Forest, c: Forest, frags: Forest, p: Path, x: Str)
    requires Author(c, frags, p, x).Some? && Uniq(frags) && AllOwn(frags) && Tail(b, o, c, frags)
    ensures var n := Author(c, frags, p, x).value;
            InFragment(n) && KidAt(o, n[0]).Some? && MergedPath(b, o, n) == p && ValueAt(o, n, x).Some?
    decreases frags
  {
    hide Step, ValueAt, AllOwn, OwnName, Uniq, Tail, Before, StepWriter, StepPath, KidAt;
    OwnRest(frags);
    TailRest(b, o, c, frags);
    match frags
    case SubF(f, k, r) =>
      if Author(Step(c, k), r, p, x).Some? {
        AuthorIs(b, o, Step(c, k), r, p, x);
      } else {
        var q := StepWriter(c, k, p, x).value;
        StepAuthor(c, k, p, x);
        FragmentValue(o, f, k, q, x);
        var n := [f] + ([OVERLAY] + q);
        assert n == [f, OVERLAY] + q && n[2..] == q && n[0] == f && n[1] == OVERLAY;
      }
    case NopF(r) => AuthorIs(b, o, c, r, p, x);
    case PropF(_, _, r) => AuthorIs(b, o, c, r, p, x);
  }

  lemma StepAuthor(c: Forest, k: Forest, p: Path, x: Str)
    requires StepWriter(c, k, p, x).Some? && Uniq(k) && OwnName(k, OVERLAY)
    ensures var r := StepWriter(c, k, p, x).value; StepPath(c, k, r) == p && ValueAt(SubBodyOrNil(k), r, x).Some?
  {
    hide Target, Writer, Went, ValueAt, NodeAt;
    var t := Target(c, k).v;
    OwnSub(k, OVERLAY);
    KidUniq(k, OVERLAY);
    WriterIs(NodeAt(c, t).value, SubBody(k, OVERLAY), p[|t|..], x);
    assert t + p[|t|..] == p;
  }

  /** Where a fragment's node goes there is a node, and where it sets a value there is an author. */
  lemma {:induction false} AuthorThere(c: Forest, o: Forest, frags: Forest, n: Path, x: Str)
    requires InFragment(n) && NodeAt(o, n).Some? && KidAt(frags, n[0]).Some? && KidAt(o, n[0]) == KidAt(frags, n[0])
    requires OwnName(KidAt(o, n[0]).value, OVERLAY) && Merges(Before(c, frags, n[0]), KidAt(o, n[0]).value)
    ensures var p := StepPath(Before(c, frags, n[0]), KidAt(o, n[0]).value, n[2..]);
            && Arrives(c, frags, p)
            && (ValueAt(o, n, x).Some? ==> Author(c, frags, p, x).Some?)
    decreases frags
  {
    hide Step, StepPath, Merges, StepWriter, StepReaches, ValueAt, NodeAt, OwnName;
    match frags
    case SubF(f, k, r) =>
      if f == n[0] {
        StepThere(c, o, k, n, x);
      } else {
        AuthorThere(Step(c, k), o, r, n, x);
      }
    case NopF(r) => AuthorThere(c, o, r, n, x);
    case PropF(_, _, r) => AuthorThere(c, o, r, n, x);
  }

  lemma StepThere(c: Forest, o: Forest, k: Forest, n: Path, x: Str)
    requires InFragment(n) && NodeAt(o, n).Some? && KidAt(o, n[0]) == Some(k) && OwnName(k, OVERLAY) && Merges(c, k)
    ensures StepReaches(c, k, StepPath(c, k, n[2..]))
    ensures ValueAt(o, n, x).Some? ==> StepWriter(c, k, StepPath(c, k, n[2..]), x).Some?
  {
    hide Target, Writer, Went, ValueAt, NodeAt, Reached;
    var t := Target(c, k).v;
    FragmentValue(o, n[0], k, n[2..], x);
    assert [n[0], OVERLAY] + n[2..] == n;
    WriterThere(NodeAt(c, t).value, SubBody(k, OVERLAY), n[2..], x);
    var w := Went(NodeAt(c, t).value, SubBody(k, OVERLAY), n[2..]);
    assert (t + w)[|t|..] == w;
  }

  /** When overlay_merge succeeds, every fragment finds its target. */
  lemma {:induction false} AllMerge(c: Forest, frags: Forest, f: Str)
    requires MergeAll(c, frags).Ok? && KidAt(frags, f).Some? && HasSub(KidAt(frags, f).value, OVERLAY)
    ensures Merges(Before(c, frags, f), KidAt(frags, f).value)
    decreases frags
  {
    hide HasSub, Target, Apply, PutAt, NodeAt, Step;
    match frags
    case SubF(g, k, r) =>
      StepIs(c, g, k, r);
      if g != f {
        AllMerge(Step(c, k), r, f);
      }
    case NopF(r) => AllMerge(c, r, f);
    case PropF(_, _, r) => AllMerge(c, r, f);
  }
}
