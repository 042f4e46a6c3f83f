/**
 * What fdt_overlay_apply promises: references made inside the overlay and inside the base still mean the node they
 * meant, and no two nodes of the result share a phandle; and exactly when it keeps these promises.
 */
module OverlayProof {
  import opened Bytes
  import opened Tree
  import opened Encoding
  import opened Positions
  import opened Merge
  import opened Sem
  import opened Writers
  import opened Overlay
  import opened OverlaySteps
  import opened Skeleton
  import opened Refs
  import opened Conflicts
  import opened Lookups
  import opened Merged

  // ----- The stages -----

  /** The overlay before the conflicting phandles are looked for. */
  function Settled(b: Forest, o: Forest): Forest {
    match Resolved(b, o)
    case Ok(o3) => o3
    case Err(_) => Nil
  }

  /** The overlay as it is merged. */
  function Final(b: Forest, o: Forest): Forest {
    match Prepare(b, o)
    case Ok(o') => o'
    case Err(_) => Nil
  }

  /** The base with the overlay applied. */
  function Outcome(b: Forest, o: Forest): Forest {
    match OverlayApply(b, o)
    case Ok(m) => m
    case Err(_) => Nil
  }

  /** A base and an overlay as they should be; names and phandles are unique in each; and the overlay can be applied. */
  ghost predicate Applies(b: Forest, o: Forest) {
    Uniq(b) && PhandlesApart(b) && Sound(o) && FixupsSound(o) && OverlayApply(b, o).Ok?
  }

  lemma Stages(b: Forest, o: Forest)
    requires Applies(b, o)
    ensures Resolved(b, o) == Ok(Settled(b, o)) && Prevent(b, Settled(b, o), Settled(b, o)) == Ok(Final(b, o))
    ensures MergeAll(b, Final(b, o)) == Ok(Outcome(b, o)) && OverlayApply(b, o) == Ok(Outcome(b, o))
    ensures Sound(o) && FixupsSound(o) && Uniq(b) && PhandlesApart(b)
  {
  }

  // ----- The overlay when it is merged -----

  lemma BaseBounded(b: Forest)
    ensures Bounded(b, MaxPhandle(b))
  {
    hide Ph;
    forall r
      ensures Ph(b, r) <= MaxPhandle(b)
    {
      MaxBound(b, r);
    }
  }

  lemma SettledIs(b: Forest, o: Forest)
    requires Applies(b, o)
    ensures var o3 := Settled(b, o);
            && Ready(o, o3, MaxPhandle(b)) && Mid(o, o3, o3, MaxPhandle(b)) && Skel(o3) == Skel(o) && Uniq(o3)
            && forall p :: Ph(o3, p) == if Ph(o, p) == 0 then 0 else Ph(o, p) + MaxPhandle(b)
  {
    hide Uniq, Ph, NodeAt, Skel, ValueAt, Shift, Fixups, RewriteLocal, ListsSound, PhandlesSound, RefsHold, Agreeing,
      FixupsSound, Prevent, MergeAll, Canon,
      Specials, PhandlesApart;
    FixupsHold(b, o, MaxPhandle(b));
    SkelUniq(o, Settled(b, o));
  }

  lemma ShapesSelf(o: Forest, o3: Forest)
    requires Skel(o) == Skel(o3)
    ensures Shapes(o, [], o3)
  {
    ShapesOf(o, [], o3);
  }

  /** The overlay as it is merged differs from the settled one by the phandles it has taken from the base. */
  lemma FinalIs(b: Forest, o: Forest)
    requires Applies(b, o)
    ensures var o3 := Settled(b, o); var o' := Final(b, o);
            && Mid(o, o3, o', MaxPhandle(b)) && Skel(o') == Skel(o) && Uniq(o') && AllOwn(o')
            && forall p :: Ph(o', p) == Adopted(b, o3, o3, p, Ph(o3, p))
  {
    hide Applies, Uniq, Ph, Skel, Adopted, Ready, Mid, Prevent, Shapes, Through, FixupsSound, Settled, Final, MergeAll,
      PhandlesApart, Sound, AllOwn, Bounded,
      Resolved, Outcome;
    Stages(b, o);
    var o3 := Settled(b, o);
    SettledIs(b, o);
    BaseBounded(b);
    ShapesSelf(o, o3);
    PreventHolds(b, o, o3, o3, MaxPhandle(b), o3);
    MidSkel(o, o3, Final(b, o), MaxPhandle(b));
    SkelUniq(o, Final(b, o));
    SkelOwn(o, Final(b, o));
  }

  lemma SkelOwn(o: Forest, o': Forest)
    requires Sound(o) && Skel(o) == Skel(o')
    ensures AllOwn(o')
  {
    hide Uniq, Canon, Skel, ListsSound, PhandlesSound, Ph;
    forall f | KidAt(o', f).Some?
      ensures OwnName(KidAt(o', f).value, OVERLAY)
    {
      SkelHas(o', o, f);
      SkelMeant(KidAt(o', f).value, KidAt(o, f).value, OVERLAY);
    }
  }

  /** A node that has a phandle property when it is merged had a phandle from the start. */
  lemma HadPhandle(b: Forest, o: Forest, p: Path, x: Str)
    requires Applies(b, o) && IsPhandle(x) && ValueAt(Final(b, o), p, x).Some?
    ensures Ph(o, p) != 0 && Ph(Final(b, o), p) != 0
    ensures CellIn(ValueAt(Final(b, o), p, x)) == Some(Ph(Final(b, o), p))
  {
    hide Applies, Uniq, Ph, Skel, ValueAt, RefsHold, SameLists, Plain, NodeAt, Adopted, Settled, Final, Ready, AllOwn;
    var o' := Final(b, o);
    FinalIs(b, o);
    SettledIs(b, o);
    SkelValue(o', o, p, x);
    ShiftedCell(b, o, p, x);
    assert Ph(o', p) == Ph(Settled(b, o), p) || 0 < Ph(o', p);
  }

  lemma ShiftedCell(b: Forest, o: Forest, p: Path, x: Str)
    requires Applies(b, o) && IsPhandle(x) && ValueAt(o, p, x).Some?
    ensures Ph(o, p) != 0
  {
    hide Uniq, Ph, ValueAt, Shift, NodeAt, RewriteLocal, Fixups, Prevent, MergeAll, Canon, PhandlesApart;
    ShiftAt(o, MaxPhandle(b), p, x);
    assert PhandlesSound(o, p, x);
  }

  // ----- What an overlay node's phandle becomes -----

  lemma PhOr(b: Forest, t: Path, r: Path)
    ensures Ph(NodeOr(b, t), r) == Ph(b, t + r)
  {
    assert (t + r)[|t|..] == r;
    if NodeAt(b, t).Some? {
      NodeBelow(b, t, t + r);
    } else {
      NilAt(r, []);
      NoneBelow(b, t, t + r);
    }
  }

  /** The phandle of the base node that the conflict pass has matched the overlay node n with, or 0. */
  function MatchedPh(b: Forest, o: Forest, n: Path): nat {
    if !InFragment(n) then 0 else
      match Foreseen(b, Settled(b, o), Settled(b, o), n[0])
      case Ok(t) => Ph(b, t + Into(NodeOr(b, t), n[2..]))
      case Err(_) => 0
  }

  /**
   * An overlay node is merged with the phandle it has been matched with, or else with its own, shifted above the
   * base's.
   */
  lemma FinalPh(b: Forest, o: Forest, n: Path)
    requires Applies(b, o) && InFragment(n) && Ph(o, n) != 0
    ensures Ph(Final(b, o), n) == if MatchedPh(b, o, n) != 0 then MatchedPh(b, o, n) else Ph(o, n) + MaxPhandle(b)
    ensures MatchedPh(b, o, n) <= MaxPhandle(b)
  {
    hide Applies, Uniq, Ph, Mid, Skel, Final, Settled, Foreseen, Into, NodeOr, Ready, AllOwn;
    FinalIs(b, o);
    SettledIs(b, o);
    BaseBounded(b);
    var f := Foreseen(b, Settled(b, o), Settled(b, o), n[0]);
    if f.Ok? {
      PhOr(b, f.v, Into(NodeOr(b, f.v), n[2..]));
    }
  }

  lemma OwnPhApart(b: Forest, o: Forest, n: Path, l: Path)
    requires Applies(b, o) && Ph(o, n) != 0 && Ph(o, n) == Ph(o, l)
    ensures n == l
  {
  }

  // ----- The result -----

  /** At each path the result has the value of the last overlay node that sets it there, or else the base's. */
  lemma ResultAt(b: Forest, o: Forest, p: Path, x: Str)
    requires Applies(b, o)
    ensures ValueAt(Outcome(b, o), p, x) == Authored(Final(b, o), Author(b, Final(b, o), p, x), x, ValueAt(b, p, x))
    ensures NodeAt(Outcome(b, o), p).Some? <==> NodeAt(b, p).Some? || Arrives(b, Final(b, o), p)
    ensures Uniq(Outcome(b, o))
  {
    hide Applies, Uniq, Final, Settled, Outcome, MergeAll, AllOwn, Mid, Skel, Adopted, ValueAt, NodeAt, Resolved,
      Prevent, PhandlesApart, Sound;
    Stages(b, o);
    FinalIs(b, o);
    MergeAllWrites(b, Final(b, o), Final(b, o), p, x);
  }

  lemma AuthorOf(b: Forest, o: Forest, p: Path, x: Str)
    requires Applies(b, o) && Author(b, Final(b, o), p, x).Some?
    ensures var n := Author(b, Final(b, o), p, x).value;
            InFragment(n) && NodeAt(o, n).Some? && MergedPath(b, Final(b, o), n) == p
              && ValueAt(Final(b, o), n, x).Some?
  {
    hide Applies, Uniq, Final, Settled, AllOwn, Mid, Skel, Adopted, ValueAt, MergedPath, NodeAt;
    FinalIs(b, o);
    var n := Author(b, Final(b, o), p, x).value;
    AuthorIs(b, Final(b, o), b, Final(b, o), p, x);
    NodeOfValue(Final(b, o), n, x);
    SkelNode(Final(b, o), o, n);
  }

  lemma NodeOfValue(o: Forest, p: Path, x: Str)
    requires ValueAt(o, p, x).Some?
    ensures NodeAt(o, p).Some?
  {
  }

  /** A property that one overlay node alone sets is written by that node. */
  lemma SoleAuthor(b: Forest, o: Forest, n: Path, x: Str)
    requires Applies(b, o) && InFragment(n) && ValueAt(Final(b, o), n, x).Some?
    requires forall q | InFragment(q) && ValueAt(Final(b, o), q, x).Some? :: q == n
    ensures NodeAt(o, n).Some? && Author(b, Final(b, o), MergedPath(b, Final(b, o), n), x) == Some(n)
  {
    hide Applies, Uniq, Final, Settled, AllOwn, Mid, Skel, Adopted, ValueAt, NodeAt, Merges, Before, HasSub, Ph;
    FinalIs(b, o);
    var o' := Final(b, o);
    NodeOfValue(o', n, x);
    SkelNode(o', o, n);
    FragmentOf(o', n);
    NodeMerged(b, o, n);
    AuthorThere(b, o', o', n, x);
    AuthorOf(b, o, MergedPath(b, o', n), x);
  }

  /** The overlay node that the phandle of the node at path p comes from, if it does not come from the base. */
  function Giver(b: Forest, o: Forest, p: Path): Option<Path> {
    match Author(b, o, p, PHANDLE)
    case Some(n) => Some(n)
    case None => if CellIn(ValueAt(b, p, PHANDLE)).Some? then None else Author(b, o, p, LINUX_PHANDLE)
  }

  /** The phandle of every node of the result: its giver's, or else what it was in the base. */
  lemma GiverIs(b: Forest, o: Forest, p: Path)
    requires Applies(b, o)
    ensures match Giver(b, Final(b, o), p)
            case Some(n) =>
              && InFragment(n) && NodeAt(o, n).Some? && MergedPath(b, Final(b, o), n) == p
              && Ph(o, n) != 0 && Ph(Outcome(b, o), p) == Ph(Final(b, o), n) != 0
            case None => Ph(Outcome(b, o), p) == Ph(b, p)
  {
    hide Applies, Ph, Final, ValueAt, Outcome, Author, CellIn, MergedPath, Uniq, NodeAt, InFragment, Arrives;
    ResultAt(b, o, p, PHANDLE);
    ResultAt(b, o, p, LINUX_PHANDLE);
    PhIs(Outcome(b, o), p);
    PhIs(b, p);
    assert IsPhandle(PHANDLE) && IsPhandle(LINUX_PHANDLE);
    if Author(b, Final(b, o), p, PHANDLE).Some? {
      AuthorOf(b, o, p, PHANDLE);
      HadPhandle(b, o, Author(b, Final(b, o), p, PHANDLE).value, PHANDLE);
    } else if CellIn(ValueAt(b, p, PHANDLE)).None? && Author(b, Final(b, o), p, LINUX_PHANDLE).Some? {
      AuthorOf(b, o, p, LINUX_PHANDLE);
      HadPhandle(b, o, Author(b, Final(b, o), p, LINUX_PHANDLE).value, LINUX_PHANDLE);
    }
  }

  // ----- The theorems -----

  /** Every phandle of the base is that of the same node in the result. */
  ghost predicate BaseKept(b: Forest, m: Forest) {
    forall p | Ph(b, p) != 0 :: Ph(m, p) == Ph(b, p)
  }

  /**
   * The node that gives the node at p its phandle has been matched with a base node with p's phandle, or with none if p
   * has none.
   */
  predicate SafeAt(b: Forest, o: Forest, p: Path) {
    match Giver(b, Final(b, o), p)
    case Some(n) => MatchedPh(b, o, n) == Ph(b, p)
    case None => true
  }

  ghost predicate Safe(b: Forest, o: Forest) {
    forall p :: SafeAt(b, o, p)
  }

  /** A node that has a phandle in the base keeps it exactly if the node that gives it one has been matched with it. */
  lemma KeptAt(b: Forest, o: Forest, p: Path)
    requires Applies(b, o) && Ph(b, p) != 0
    ensures Ph(Outcome(b, o), p) == Ph(b, p) <==> SafeAt(b, o, p)
  {
    hide Applies, Ph, Final, Outcome, Giver, MergedPath, NodeAt, MatchedPh;
    GiverIs(b, o, p);
    BaseBounded(b);
    assert Ph(b, p) <= MaxPhandle(b);
    if Giver(b, Final(b, o), p).Some? {
      FinalPh(b, o, Giver(b, Final(b, o), p).value);
    }
  }

  /**
   * All phandles of the base are kept exactly if no overlay node gives a base node one that it was not matched with.
   */
  lemma BaseKeptIff(b: Forest, o: Forest)
    requires Applies(b, o)
    ensures BaseKept(b, Outcome(b, o)) <==> forall p | Ph(b, p) != 0 :: SafeAt(b, o, p)
  {
    hide Applies, Ph, Outcome, SafeAt;
    forall p | Ph(b, p) != 0
      ensures Ph(Outcome(b, o), p) == Ph(b, p) <==> SafeAt(b, o, p)
    {
      KeptAt(b, o, p);
    }
  }

  /**
   * The phandles of the base are kept and no two nodes of the result share one exactly if every overlay node that gives
   * a node its phandle has been matched with that node, or with none that has a phandle if that node had none.
   */
  lemma PhandlesSafe(b: Forest, o: Forest)
    requires Applies(b, o)
    ensures BaseKept(b, Outcome(b, o)) && PhandlesApart(Outcome(b, o)) <==> Safe(b, o)
  {
    hide Applies, Ph, Outcome, SafeAt, Final, Giver;
    BaseKeptIff(b, o);
    var m := Outcome(b, o);
    if Safe(b, o) {
      forall p, q | Ph(m, p) != 0 && Ph(m, p) == Ph(m, q)
        ensures p == q
      {
        SafeApart(b, o, p, q);
      }
    }
    if BaseKept(b, m) && PhandlesApart(m) {
      forall p
        ensures SafeAt(b, o, p)
      {
        ApartSafe(b, o, p);
      }
    }
  }

  lemma SafeApart(b: Forest, o: Forest, p: Path, q: Path)
    requires Applies(b, o) && Safe(b, o) && Ph(Outcome(b, o), p) != 0 && Ph(Outcome(b, o), p) == Ph(Outcome(b, o), q)
    ensures p == q
  {
    hide Applies, Ph, Outcome, Final, Giver, MatchedPh, MergedPath, NodeAt, FixupsSound, Sound, PhandlesApart;
    Stages(b, o);
    BaseBounded(b);
    SafePh(b, o, p);
    SafePh(b, o, q);
    var n, l := Giver(b, Final(b, o), p), Giver(b, Final(b, o), q);
    assert Ph(b, p) <= MaxPhandle(b) && Ph(b, q) <= MaxPhandle(b);
    if Ph(b, p) != 0 {
      BaseApart(b, p, q);
    } else {
      OwnPhApart(b, o, n.value, l.value);
    }
  }

  lemma BaseApart(b: Forest, p: Path, q: Path)
    requires PhandlesApart(b) && Ph(b, p) != 0 && Ph(b, p) == Ph(b, q)
    ensures p == q
  {
  }

  /** Where it is safe, a node has its base phandle, or else its giver's own. */
  lemma SafePh(b: Forest, o: Forest, p: Path)
    requires Applies(b, o) && SafeAt(b, o, p)
    ensures Ph(b, p) != 0 ==> Ph(Outcome(b, o), p) == Ph(b, p)
    ensures Ph(b, p) == 0 && Ph(Outcome(b, o), p) != 0 ==>
              var n := Giver(b, Final(b, o), p);
              && n.Some? && MergedPath(b, Final(b, o), n.value) == p && Ph(o, n.value) != 0
              && Ph(Outcome(b, o), p) == Ph(o, n.value) + MaxPhandle(b)
  {
    hide Applies, Ph, Outcome, Final, Giver, MatchedPh, MergedPath, NodeAt;
    GiverIs(b, o, p);
    if Giver(b, Final(b, o), p).Some? {
      FinalPh(b, o, Giver(b, Final(b, o), p).value);
    }
  }

  lemma ApartSafe(b: Forest, o: Forest, p: Path)
    requires Applies(b, o) && BaseKept(b, Outcome(b, o)) && PhandlesApart(Outcome(b, o))
    ensures SafeAt(b, o, p)
  {
    hide Applies, Ph, Outcome, Final, Giver, MatchedPh, MergedPath, NodeAt, BaseKept, PhandlesApart;
    if Ph(b, p) != 0 {
      KeptHere(b, Outcome(b, o), p);
      KeptAt(b, o, p);
    } else {
      GiverIs(b, o, p);
      var n := Giver(b, Final(b, o), p);
      if n.Some? && MatchedPh(b, o, n.value) != 0 {
        FinalPh(b, o, n.value);
        var q := MatchedPath(b, o, n.value);
        KeptHere(b, Outcome(b, o), q);
        BaseApart(Outcome(b, o), q, p);
      }
    }
  }

  lemma KeptHere(b: Forest, m: Forest, p: Path)
    requires BaseKept(b, m) && Ph(b, p) != 0
    ensures Ph(m, p) == Ph(b, p)
  {
  }

  /** The base node that an overlay node has been matched with. */
  lemma MatchedPath(b: Forest, o: Forest, n: Path) returns (q: Path)
    requires MatchedPh(b, o, n) != 0
    ensures Ph(b, q) == MatchedPh(b, o, n)
  {
    var t := Foreseen(b, Settled(b, o), Settled(b, o), n[0]).v;
    q := t + Into(NodeOr(b, t), n[2..]);
  }

  /** Where it is safe, a search for a phandle of the base finds the node that it found in the base. */
  lemma BasePhandlesFound(b: Forest, o: Forest, p: Path)
    requires Applies(b, o) && Safe(b, o) && Ph(b, p) != 0
    ensures OverlayApply(b, o) == Ok(Outcome(b, o))
    ensures PhandlePath(Outcome(b, o), Ph(b, p)) == PhandlePath(b, Ph(b, p)) == Some(p)
  {
    hide Applies, Ph, Outcome, PhandlePath, Safe, Uniq, Settled, Final, Resolved, Prevent, MergeAll, Sound;
    Stages(b, o);
    PhandlesSafe(b, o);
    ResultAt(b, o, [], []);
    PhandlePathFinds(b, Ph(b, p), p);
    PhandlePathFinds(Outcome(b, o), Ph(b, p), p);
  }

  /** A reference to the overlay node n is one to the node it is merged into. */
  predicate Follows(b: Forest, o: Forest, n: Path) {
    match Giver(b, Final(b, o), MergedPath(b, Final(b, o), n))
    case Some(q) => q == n || MatchedPh(b, o, q) == MatchedPh(b, o, n) != 0
    case None => MatchedPh(b, o, n) == Ph(b, MergedPath(b, Final(b, o), n)) != 0
  }

  /** The node that n is merged into has the phandle that n is merged with exactly if references to n follow. */
  lemma FollowsIff(b: Forest, o: Forest, n: Path)
    requires Applies(b, o) && InFragment(n) && Ph(o, n) != 0
    ensures Ph(Outcome(b, o), MergedPath(b, Final(b, o), n)) == Ph(Final(b, o), n) <==> Follows(b, o, n)
  {
    hide Applies, Ph, Outcome, Final, Giver, MatchedPh, MergedPath, NodeAt;
    var p := MergedPath(b, Final(b, o), n);
    BaseBounded(b);
    assert Ph(b, p) <= MaxPhandle(b);
    GiverIs(b, o, p);
    FinalPh(b, o, n);
    var g := Giver(b, Final(b, o), p);
    if g.Some? {
      FinalPh(b, o, g.value);
      if Ph(o, g.value) == Ph(o, n) {
        OwnPhApart(b, o, g.value, n);
      }
    }
  }

  /**
   * A cell listed in the local fixups that referred to overlay node n, in a property that no other overlay node sets
   * later, holds in the result the phandle of the node that n was merged into, exactly if that phandle has been given
   * by n, or by the base node that n was matched with.
   */
  lemma ReferencesFollow(b: Forest, o: Forest, p: Path, x: Str, i: nat, n: Path)
    requires Applies(b, o) && IsRef(o, p, x, i) && Ph(o, n) != 0 && Cell(o, p, x, i) == Some(Ph(o, n))
    requires InFragment(p) && InFragment(n) && Author(b, Final(b, o), MergedPath(b, Final(b, o), p), x) == Some(p)
    ensures OverlayApply(b, o) == Ok(Outcome(b, o))
    ensures var m, o' := Outcome(b, o), Final(b, o);
            Cell(m, MergedPath(b, o', p), x, i) == Some(Ph(m, MergedPath(b, o', n))) <==> Follows(b, o, n)
  {
    hide Applies, Ph, Final, ValueAt, Outcome, Author, NodeAt, MergedPath, Lists, Listed, Settled, Resolved, Prevent,
      MergeAll, Sound, Skel, Plain, Uniq, Adopted,
      Follows, AllOwn;
    Stages(b, o);
    FinalIs(b, o);
    assert Cell(Final(b, o), p, x, i) == Some(Ph(Final(b, o), n));
    ResultAt(b, o, MergedPath(b, Final(b, o), p), x);
    FollowsIff(b, o, n);
  }

  /** Every node of a fragment is in the result, at the path it is merged into. */
  lemma NodeMerged(b: Forest, o: Forest, n: Path)
    requires Applies(b, o) && InFragment(n) && NodeAt(o, n).Some?
    ensures KidAt(Final(b, o), n[0]).Some? && Merges(Before(b, Final(b, o), n[0]), KidAt(Final(b, o), n[0]).value)
    ensures NodeAt(Outcome(b, o), MergedPath(b, Final(b, o), n)).Some?
  {
    hide Applies, Uniq, Final, Settled, Outcome, Skel, Adopted, Mid, NodeAt, Merges, Before, Arrives, Author, HasSub,
      StepPath, ValueAt, Resolved, Prevent, MergeAll,
      Sound, PhandlesApart, OwnName;
    Stages(b, o);
    FinalIs(b, o);
    var o', f := Final(b, o), n[0];
    SkelNode(o', o, n);
    FragmentOf(o', n);
    AllMerge(b, o', f);
    AuthorThere(b, o', o', n, []);
    ResultAt(b, o, MergedPath(b, o', n), []);
  }

  lemma FragmentOf(o: Forest, n: Path)
    requires InFragment(n) && NodeAt(o, n).Some? && AllOwn(o)
    ensures KidAt(o, n[0]).Some? && OwnName(KidAt(o, n[0]).value, OVERLAY) && HasSub(KidAt(o, n[0]).value, OVERLAY)
  {
    OwnSub(KidAt(o, n[0]).value, OVERLAY);
    assert n[1..][0] == OVERLAY;
  }
}
