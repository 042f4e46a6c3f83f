/**
 * The merge of two nodes, followed as it runs: into which node of the base each node of the overlay goes, each name
 * being looked up in the base as it has become by then, and which of them sets a value last.
 */
module Writers {
  import opened Bytes
  import opened Tree
  import opened Positions
  import opened Edits
  import opened Merge
  import opened Sem

  /** b after the overlay's subnode n, with content k, has been merged into it. */
  function WithKid(b: Forest, n: Str, k: Forest): Forest {
    var w := WithSub(b, n);
    PutSub(w, n, Apply(SubBody(w, n), k))
  }

  lemma WithKidAt(b: Forest, n: Str, k: Forest, m: Str, x: Str)
    ensures var c := WithKid(b, n, k);
            && KidAt(c, m) == (if m == Meant(b, n) then Some(Apply(KidOrNil(b, m), k)) else KidAt(b, m))
            && Data(c, x) == Data(b, x)
            && Meant(c, m) == (if !HasSub(b, n) && NodeNameEq(n, m) then n else Meant(b, m))
            && (HasSub(b, m) ==> HasSub(c, m))
  {
    var w := WithSub(b, n);
    SubsKeepData(b, n, Nil, x);
    SubIsMeant(b, n);
    AddSubMeant(b, n, m);
    AddSubMeant(b, n, n);
    assert NodeNameEq(n, n);
    SubIsMeant(w, n);
    SubsKeepData(w, n, Apply(SubBody(w, n), k), x);
    PutSubMeant(w, n, Apply(SubBody(w, n), k), m);
  }

  /** Setting properties leaves the subnodes and the names that stand for them. */
  lemma PropsKeepKids(b: Forest, o: Forest, m: Str)
    ensures KidAt(ApplyProps(b, o), m) == KidAt(b, m) && Meant(ApplyProps(b, o), m) == Meant(b, m)
    ensures KidOrNil(ApplyProps(b, o), m) == KidOrNil(b, m)
  {
    ApplyPropsKids(b, o, m, {});
    ApplyPropsMeant(b, o, m);
  }

  // ----- Where the overlay's nodes go -----

  /** The path in the merged tree of what was at path r in the overlay o. */
  function Went(b: Forest, o: Forest, r: Path): (p: Path)
    ensures |p| == |r|
    decreases o, 1
  {
    if r == [] then [] else WentSubs(ApplyProps(b, o), o, r)
  }

  function WentSubs(b: Forest, o: Forest, r: Path): (p: Path)
    requires r != []
    ensures |p| == |r|
    decreases o, 0
  {
    match o
    case Nil => r
    case SubF(n, k, rest) =>
      if n == r[0] then [Meant(b, n)] + Went(KidOrNil(b, Meant(b, n)), k, r[1..])
        else WentSubs(WithKid(b, n, k), rest, r)
    case _ => WentSubs(b, o.rest, r)
  }

  /** The overlay path of the last node that sets property x at path p. */
  function Writer(b: Forest, o: Forest, p: Path, x: Str): Option<Path>
    decreases o, 1
  {
    if p == [] then (if Data(o, x).Some? then Some([]) else None) else WriterSubs(ApplyProps(b, o), o, p, x)
  }

  function WriterSubs(b: Forest, o: Forest, p: Path, x: Str): Option<Path>
    requires p != []
    decreases o, 0
  {
    match o
    case Nil => None
    case SubF(n, k, rest) =>
      (match WriterSubs(WithKid(b, n, k), rest, p, x)
       case Some(r) => Some(r)
       case None => if Meant(b, n) == p[0] then Under(n, Writer(KidOrNil(b, p[0]), k, p[1..], x)) else None)
    case _ => WriterSubs(b, o.rest, p, x)
  }

  function Under(n: Str, r: Option<Path>): Option<Path> {
    match r
    case None => None
    case Some(r) => Some([n] + r)
  }

  /** A node of the overlay goes to path p. */
  predicate Reached(b: Forest, o: Forest, p: Path)
    decreases o, 1
  {
    p == [] || ReachedSubs(ApplyProps(b, o), o, p)
  }

  predicate ReachedSubs(b: Forest, o: Forest, p: Path)
    requires p != []
    decreases o, 0
  {
    match o
    case Nil => false
    case SubF(n, k, rest) =>
      ReachedSubs(WithKid(b, n, k), rest, p) || (Meant(b, n) == p[0] && Reached(KidOrNil(b, p[0]), k, p[1..]))
    case _ => ReachedSubs(b, o.rest, p)
  }

  // ----- What the merge gives -----

  /** The value of the overlay node that a writer is. */
  function Authored(o: Forest, w: Option<Path>, x: Str, d: Option<Str>): Option<Str> {
    match w
    case Some(r) => ValueAt(o, r, x)
    case None => d
  }

  /**
   * The merge has at each path the value of the last overlay node that sets it, or else the base's, and no other node.
   */
  lemma {:induction false} ApplyWrites(b: Forest, o: Forest, p: Path, x: Str)
    requires Uniq(o)
    ensures ValueAt(Apply(b, o), p, x) == Authored(o, Writer(b, o, p, x), x, ValueAt(b, p, x))
    ensures NodeAt(Apply(b, o), p).Some? <==> NodeAt(b, p).Some? || Reached(b, o, p)
    decreases o, 1
  {
    hide ApplyProps, WithKid, Meant, Uniq;
    ApplyPropsData(b, o, x);
    SubsDataKept(ApplyProps(b, o), o, x);
    if p != [] {
      PropsKeepKids(b, o, p[0]);
      SubsWrite(ApplyProps(b, o), o, o, p, x);
    }
  }

  lemma {:induction false} SubsDataKept(b: Forest, o: Forest, x: Str)
    ensures Data(ApplySubs(b, o), x) == Data(b, x)
    decreases o
  {
    hide Apply;
    match o
    case Nil =>
    case SubF(n, k, r) =>
      WithKidAt(b, n, k, n, x);
      SubsDataKept(WithKid(b, n, k), r, x);
    case _ => SubsDataKept(b, o.rest, x);
  }

  /** One turn of the loop over the subnodes. */
  lemma WithKidWrites(b: Forest, n: Str, k: Forest, p: Path, x: Str)
    requires p != [] && Uniq(k)
    ensures ValueAt(WithKid(b, n, k), p, x) ==
            if Meant(b, n) == p[0] then Authored(k, Writer(KidOrNil(b, p[0]), k, p[1..], x), x, ValueAt(b, p, x))
              else ValueAt(b, p, x)
    ensures NodeAt(WithKid(b, n, k), p).Some? <==>
            NodeAt(b, p).Some? || (Meant(b, n) == p[0] && Reached(KidOrNil(b, p[0]), k, p[1..]))
    decreases k, 2
  {
    hide WithKid, Meant, Writer, Reached, Uniq, KidAt, Apply;
    WithKidAt(b, n, k, p[0], x);
    if Meant(b, n) == p[0] {
      ApplyWrites(KidOrNil(b, p[0]), k, p[1..], x);
      NilAt(p[1..], x);
      NilReached(p[1..], k, KidOrNil(b, p[0]));
    }
  }

  lemma NilReached(p: Path, k: Forest, b: Forest)
    ensures p == [] ==> Reached(b, k, p)
  {
  }

  /** whole is the overlay node's content, o what is left of it. */
  lemma {:induction false} SubsWrite(b: Forest, whole: Forest, o: Forest, p: Path, x: Str)
    requires p != [] && Uniq(o) && forall n | KidAt(o, n).Some? :: KidAt(whole, n) == KidAt(o, n)
    ensures ValueAt(ApplySubs(b, o), p, x) == Authored(whole, WriterSubs(b, o, p, x), x, ValueAt(b, p, x))
    ensures NodeAt(ApplySubs(b, o), p).Some? <==> NodeAt(b, p).Some? || ReachedSubs(b, o, p)
    decreases o, 0
  {
    hide Apply, WithKid, Meant, Writer, Reached, ValueAt, NodeAt, ApplySubs;
    match o
    case Nil => SubsNothing(b, whole, o, p, x);
    case SubF(n, k, r) =>
      KidStep(b, n, k, r);
      assert KidAt(o, n) == Some(k) && forall m | KidAt(r, m).Some? :: m != n && KidAt(o, m) == KidAt(r, m);
      SubsWrite(WithKid(b, n, k), whole, r, p, x);
      WithKidWrites(b, n, k, p, x);
      UnderValue(whole, n, k, Writer(KidOrNil(b, p[0]), k, p[1..], x), x);
    case NopF(r) =>
      SubsNothing(b, whole, o, p, x);
      SubsWrite(b, whole, r, p, x);
    case PropF(_, _, r) =>
      SubsNothing(b, whole, o, p, x);
      SubsWrite(b, whole, r, p, x);
  }

  lemma SubsNothing(b: Forest, whole: Forest, o: Forest, p: Path, x: Str)
    requires !o.SubF? && p != []
    ensures ApplySubs(b, o) == if o.Nil? then b else ApplySubs(b, o.rest)
  {
  }

  lemma KidStep(b: Forest, n: Str, k: Forest, r: Forest)
    ensures ApplySubs(b, SubF(n, k, r)) == ApplySubs(WithKid(b, n, k), r)
  {
  }

  lemma UnderValue(o: Forest, n: Str, k: Forest, r: Option<Path>, x: Str)
    requires KidAt(o, n) == Some(k)
    ensures r.Some? ==> ValueAt(o, [n] + r.value, x) == ValueAt(k, r.value, x)
                        && NodeAt(o, [n] + r.value) == NodeAt(k, r.value)
  {
    if r.Some? {
      assert ([n] + r.value)[1..] == r.value;
    }
  }

  // ----- A writer goes where it writes -----

  lemma {:induction false} WriterIs(b: Forest, o: Forest, p: Path, x: Str)
    requires Uniq(o) && Writer(b, o, p, x).Some?
    ensures var r := Writer(b, o, p, x).value; Went(b, o, r) == p && ValueAt(o, r, x).Some?
    decreases o, 1
  {
    hide ApplyProps;
    if p != [] {
      WriterSubsIs(ApplyProps(b, o), o, o, p, x);
    }
  }

  lemma {:induction false} WriterSubsIs(b: Forest, whole: Forest, o: Forest, p: Path, x: Str)
    requires p != [] && Uniq(o) && WriterSubs(b, o, p, x).Some?
    requires forall n | KidAt(o, n).Some? :: KidAt(whole, n) == KidAt(o, n)
    ensures var r := WriterSubs(b, o, p, x).value;
            r != [] && KidAt(o, r[0]).Some? && WentSubs(b, o, r) == p && ValueAt(whole, r, x).Some?
    decreases o, 0
  {
    hide WithKid, Meant, Writer, Went, ValueAt;
    match o
    case SubF(n, k, rest) =>
      assert KidAt(o, n) == Some(k) && forall m | KidAt(rest, m).Some? :: m != n && KidAt(o, m) == KidAt(rest, m);
      if WriterSubs(WithKid(b, n, k), rest, p, x).Some? {
        WriterSubsIs(WithKid(b, n, k), whole, rest, p, x);
      } else {
        WriterIs(KidOrNil(b, p[0]), k, p[1..], x);
        var q := Writer(KidOrNil(b, p[0]), k, p[1..], x).value;
        UnderValue(whole, n, k, Some(q), x);
        assert ([n] + q)[1..] == q && [p[0]] + p[1..] == p;
      }
    case NopF(rest) => WriterSubsIs(b, whole, rest, p, x);
    case PropF(_, _, rest) => WriterSubsIs(b, whole, rest, p, x);
  }

  /** Where a node that sets the value goes, some node is the last to set it. */
  lemma {:induction false} WriterThere(b: Forest, o: Forest, r: Path, x: Str)
    requires NodeAt(o, r).Some?
    ensures ValueAt(o, r, x).Some? ==> Writer(b, o, Went(b, o, r), x).Some?
    ensures Reached(b, o, Went(b, o, r))
    decreases o, 1
  {
    hide ApplyProps;
    if r != [] {
      WriterSubsThere(ApplyProps(b, o), o, r, x);
    }
  }

  lemma {:induction false} WriterSubsThere(b: Forest, o: Forest, r: Path, x: Str)
    requires r != [] && NodeAt(o, r).Some?
    ensures ValueAt(o, r, x).Some? ==> WriterSubs(b, o, WentSubs(b, o, r), x).Some?
    ensures ReachedSubs(b, o, WentSubs(b, o, r))
    decreases o, 0
  {
    hide WithKid, Meant, Writer, Went, Reached;
    match o
    case SubF(n, k, rest) =>
      if n == r[0] {
        WriterThere(KidOrNil(b, Meant(b, n)), k, r[1..], x);
        var p := WentSubs(b, o, r);
        assert p[0] == Meant(b, n) && p[1..] == Went(KidOrNil(b, Meant(b, n)), k, r[1..]);
      } else {
        assert KidAt(o, r[0]) == KidAt(rest, r[0]);
        WriterSubsThere(WithKid(b, n, k), rest, r, x);
      }
    case NopF(rest) =>
      assert KidAt(o, r[0]) == KidAt(rest, r[0]);
      WriterSubsThere(b, rest, r, x);
    case PropF(_, _, rest) =>
      assert KidAt(o, r[0]) == KidAt(rest, r[0]);
      WriterSubsThere(b, rest, r, x);
  }
}
