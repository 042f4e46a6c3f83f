/**
 * The structure block as bytes (Devicetree Specification v0.4, sections 5.4 and 5.5): when a run
 * of bytes is the encoding of a run of tags, given the strings block that property names point into.
 * Padding bytes are unconstrained, as no reader looks at them and not every writer clears them.
 */
module Encoding {
  import opened Bytes
  import opened Tree

  const BEGIN_NODE := 1
  const END_NODE := 2
  const PROP := 3
  const NOP := 4
  const END := 9

  const NOTFOUND := 1
  const EXISTS := 2
  const NOSPACE := 3
  const BADOFFSET := 4
  const BADPATH := 5
  const BADPHANDLE := 6
  const BADSTATE := 7
  const TRUNCATED := 8
  const BADSTRUCTURE := 11
  const INTERNAL := 13
  const BADVALUE := 15
  const BADOVERLAY := 16
  const NOPHANDLES := 17

  const WILD := 100  // a write outside the property that is named, which the C code does not detect

  function TagOf(t: Tok): nat {
    match t
    case Begin(_) => BEGIN_NODE
    case EndNode => END_NODE
    case Prop(_, _) => PROP
    case Nop => NOP
    case End => END
  }

  /** The NUL-terminated string that starts at offset i of a strings block is s. */
  predicate IsStringAt(strs: Str, i: nat, s: Str) {
    && i + |s| < |strs|
    && 0 !in s
    && strs[i..i + |s|] == s
    && strs[i + |s|] == 0
  }

  predicate Reps(strs: Str, b: Str, t: Tok) {
    && |b| == TokSize(t)
    && Get32(b, 0) == TagOf(t)
    && match t
       case Begin(n) => 0 !in n && b[4..4 + |n|] == n && b[4 + |n|] == 0
       case Prop(p, d) => |d| < INT_MAX && Get32(b, 4) == |d| && IsStringAt(strs, Get32(b, 8), p)
         && b[12..12 + |d|] == d
       case _ => true
  }

  /** b is, tag after tag, an encoding of ts. */
  predicate RepAll(strs: Str, b: Str, ts: seq<Tok>)
    ensures RepAll(strs, b, ts) ==> |b| == Size(ts)
  {
    if ts == [] then b == [] else
      var n := TokSize(ts[0]);
      n <= |b| && Reps(strs, b[..n], ts[0]) && RepAll(strs, b[n..], ts[1..])
  }

  lemma Slices(b: Str, n: nat, m: nat, k: nat)
    requires n + m == k <= |b|
    ensures b[n..][..m] == b[..k][n..]
    ensures b[n..][m..] == b[k..]
    ensures b[..k][..n] == b[..n]
  {
  }

  lemma CatSlices<T>(a: seq<T>, b: seq<T>, n: nat)
    requires n <= |a|
    ensures (a + b)[n..] == a[n..] + b && (a + b)[..n] == a[..n]
  {
  }

  lemma {:induction false} RepSplit(strs: Str, b: Str, ts: seq<Tok>, us: seq<Tok>)
    requires RepAll(strs, b, ts + us)
    ensures Size(ts) <= |b|
    ensures RepAll(strs, b[..Size(ts)], ts) && RepAll(strs, b[Size(ts)..], us)
  {
    if ts == [] {
      assert ts + us == us;
      assert b[0..] == b;
    } else {
      var n := TokSize(ts[0]);
      CatSlices(ts, us, 1);
      assert (ts + us)[0] == ts[0];
      hide Reps;
      RepSplit(strs, b[n..], ts[1..], us);
      Slices(b, n, Size(ts[1..]), Size(ts));
    }
  }

  lemma {:induction false} RepJoin(strs: Str, b: Str, ts: seq<Tok>, d: Str, us: seq<Tok>)
    requires RepAll(strs, b, ts) && RepAll(strs, d, us)
    ensures RepAll(strs, b + d, ts + us)
  {
    if ts == [] {
      assert ts + us == us && b + d == d;
    } else {
      var n := TokSize(ts[0]);
      RepJoin(strs, b[n..], ts[1..], d, us);
      CatSlices(ts, us, 1);
      CatSlices(b, d, n);
      assert (ts + us)[0] == ts[0];
    }
  }

  lemma RepOne(strs: Str, b: Str, t: Tok)
    ensures RepAll(strs, b, [t]) <==> Reps(strs, b, t)
  {
    var n := TokSize(t);
    if n <= |b| {
      assert RepAll(strs, b[n..], [t][1..]) <==> b[n..] == [];
      if |b| == n {
        assert b[..n] == b;
      }
    }
  }

  /** Text appended to the strings block leaves every name in it where it was. */
  lemma {:induction false} RepMoreStrings(strs: Str, ext: Str, b: Str, ts: seq<Tok>)
    requires RepAll(strs, b, ts)
    ensures RepAll(strs + ext, b, ts)
  {
    if ts != [] {
      var n := TokSize(ts[0]);
      RepMoreStrings(strs, ext, b[n..], ts[1..]);
      if ts[0].Prop? {
        var i := Get32(b[..n], 8);
        assert (strs + ext)[i..i + |ts[0].pname|] == strs[i..i + |ts[0].pname|];
      }
    }
  }

  lemma StringUnique(strs: Str, i: nat, s: Str, s': Str)
    requires IsStringAt(strs, i, s) && IsStringAt(strs, i, s')
    ensures s == s'
  {
    assert forall k | 0 <= k < |s| :: s[k] == strs[i..i + |s|][k] == strs[i + k];
    assert forall k | 0 <= k < |s'| :: s'[k] == strs[i..i + |s'|][k] == strs[i + k];
    assert |s| >= |s'| && |s'| >= |s|;
  }

  lemma NodeNameUnique(b: Str, n: Str, n': Str)
    requires 5 + |n| <= |b| && 0 !in n && b[4..4 + |n|] == n && b[4 + |n|] == 0
    requires 5 + |n'| <= |b| && 0 !in n' && b[4..4 + |n'|] == n' && b[4 + |n'|] == 0
    ensures n == n'
  {
    StringUnique(b, 4, n, n');
  }

  /** Two tags that a run of bytes could start with are the same tag. */
  lemma HeadUnique(strs: Str, b: Str, t: Tok, t': Tok)
    requires TokSize(t) <= |b| && TokSize(t') <= |b|
    requires Reps(strs, b[..TokSize(t)], t) && Reps(strs, b[..TokSize(t')], t')
    ensures t == t'
  {
    var x, y := b[..TokSize(t)], b[..TokSize(t')];
    assert Get32(x, 0) == Get32(b, 0) == Get32(y, 0);
    if t.Begin? {
      var n, n' := t.name, t'.name;
      assert x[4..4 + |n|] == b[4..4 + |n|] && y[4..4 + |n'|] == b[4..4 + |n'|];
      NodeNameUnique(b, n, n');
    } else if t.Prop? {
      assert Get32(x, 4) == Get32(b, 4) == Get32(y, 4);
      assert x == y;
      StringUnique(strs, Get32(x, 8), t.pname, t'.pname);
    }
  }

  ghost predicate Closes(ts: seq<Tok>) {
    ts != [] && (ts[0].EndNode? || ts[0].End?)
  }

  lemma ConsCat(t: Tok, a: seq<Tok>, b: seq<Tok>)
    ensures ([t] + a + b)[0] == t && ([t] + a + b)[1..] == a + b
  {
  }

  lemma SubCat(n: Str, b: seq<Tok>, r: seq<Tok>, ts: seq<Tok>)
    ensures var s := [Begin(n)] + b + [EndNode] + r + ts; s[0] == Begin(n) && s[1..] == b + ([EndNode] + (r + ts))
  {
  }

  lemma HeadOf(f: Forest, ts: seq<Tok>)
    requires Closes(ts)
    ensures Flat(f) + ts != []
    ensures (Flat(f) + ts)[0] == match f
                                 case Nil => ts[0]
                                 case NopF(_) => Nop
                                 case PropF(p, d, _) => Prop(p, d)
                                 case SubF(n, _, _) => Begin(n)
    ensures (Flat(f) + ts)[1..] == match f
                                   case Nil => ts[1..]
                                   case NopF(r) => Flat(r) + ts
                                   case PropF(_, _, r) => Flat(r) + ts
                                   case SubF(_, b, r) => Flat(b) + ([EndNode] + (Flat(r) + ts))
  {
    match f
    case Nil => assert Flat(f) + ts == ts;
    case NopF(r) => ConsCat(Nop, Flat(r), ts);
    case PropF(p, d, r) => ConsCat(Prop(p, d), Flat(r), ts);
    case SubF(n, b, r) => SubCat(n, Flat(b), Flat(r), ts);
  }

  /** A tag stream determines the Forest it flattens, up to the tag that closes the Forest. */
  lemma {:induction false} FlatUnique(f: Forest, g: Forest, ts: seq<Tok>, us: seq<Tok>)
    requires Flat(f) + ts == Flat(g) + us
    requires Closes(ts) && Closes(us)
    ensures f == g && ts == us
  {
    HeadOf(f, ts);
    HeadOf(g, us);
    match f
    case Nil =>
      assert Flat(f) + ts == ts && Flat(g) + us == us;
    case NopF(r) =>
      FlatUnique(r, g.rest, ts, us);
    case PropF(p, d, r) =>
      FlatUnique(r, g.rest, ts, us);
    case SubF(n, b, r) =>
      var x, y := [EndNode] + (Flat(r) + ts), [EndNode] + (Flat(g.rest) + us);
      FlatUnique(b, g.body, x, y);
      assert x[1..] == Flat(r) + ts && y[1..] == Flat(g.rest) + us;
      FlatUnique(r, g.rest, ts, us);
  }

  /** Tags up to the end tag, and no end tag before that. */
  predicate Ended(ts: seq<Tok>) {
    ts != [] && if ts[0].End? then |ts| == 1 else Ended(ts[1..])
  }

  lemma PrefixSlices(b: Str, m: nat, k: nat)
    requires k <= m <= |b|
    ensures b[..m][..k] == b[..k] && b[..m][k..] == b[k..][..m - k]
  {
  }

  /** The tags up to the end tag are determined by the bytes of the structure block. */
  lemma {:induction false} EndedUnique(strs: Str, b: Str, m: nat, n: nat, ts: seq<Tok>, us: seq<Tok>)
    requires m <= |b| && n <= |b| && RepAll(strs, b[..m], ts) && RepAll(strs, b[..n], us) && Ended(ts) && Ended(us)
    ensures ts == us
  {
    hide Reps, TokSize;
    var k := TokSize(ts[0]);
    PrefixSlices(b, m, k);
    PrefixSlices(b, n, TokSize(us[0]));
    HeadUnique(strs, b, ts[0], us[0]);
    assert ts == [ts[0]] + ts[1..] && us == [us[0]] + us[1..];
    if !ts[0].End? {
      EndedUnique(strs, b[k..], m - k, n - k, ts[1..], us[1..]);
    }
  }

  lemma {:induction false} FlatEnded(f: Forest, ts: seq<Tok>)
    requires Ended(ts) && Closes(ts)
    ensures Ended(Flat(f) + ts)
  {
    HeadOf(f, ts);
    match f
    case Nil =>
    case SubF(_, k, r) =>
      FlatEnded(r, ts);
      var us := [EndNode] + (Flat(r) + ts);
      assert us[1..] == Flat(r) + ts;
      FlatEnded(k, us);
    case _ => FlatEnded(f.rest, ts);
  }

  /** A structure block decodes to at most one tree. */
  lemma DecodeUnique(strs: Str, b: Str, m: nat, n: nat, f: Forest, g: Forest)
    requires m <= |b| && n <= |b| && RepAll(strs, b[..m], Flat(f) + [End]) && RepAll(strs, b[..n], Flat(g) + [End])
    ensures f == g
  {
    FlatEnded(f, [End]);
    FlatEnded(g, [End]);
    EndedUnique(strs, b, m, n, Flat(f) + [End], Flat(g) + [End]);
    FlatUnique(f, g, [End], [End]);
  }

  // ----- Replacing a run of tags -----

  /** t is s with oldlen bytes from p on replaced by newlen bytes. */
  ghost predicate Spliced(s: Str, t: Str, p: nat, oldlen: nat, newlen: nat) {
    p + oldlen <= |s| && |t| == |s| - oldlen + newlen && t[..p] == s[..p] && t[p + newlen..] == s[p + oldlen..]
  }

  lemma SplicedWiden(s: Str, t: Str, p: nat, k: nat, oldlen: nat, newlen: nat, j: nat)
    requires Spliced(s, t, p + k, oldlen, newlen) && p + k + oldlen + j <= |s|
    ensures Spliced(s, t, p, k + oldlen + j, k + newlen + j)
  {
    var m, n := p + k + oldlen, p + k + newlen;
    assert t[..p + k][..p] == s[..p + k][..p];
    assert t[..p + k][..p] == t[..p] && s[..p + k][..p] == s[..p];
    assert t[n..][j..] == s[m..][j..];
    assert t[n..][j..] == t[n + j..] && s[m..][j..] == s[m + j..];
  }

  lemma SplicedWrite(s: Str, t: Str, p: nat, oldlen: nat, newlen: nat, o: nat, d: Str)
    requires Spliced(s, t, p, oldlen, newlen) && p <= o && o + |d| <= p + newlen
    ensures o + |d| <= |t| && Spliced(s, Overwrite(t, o, d), p, oldlen, newlen)
  {
    var u := Overwrite(t, o, d);
    assert u[..p] == t[..p];
    assert u[p + newlen..] == t[p + newlen..];
  }

  lemma SplicedRefl(s: Str, p: nat, len: nat)
    requires p + len <= |s|
    ensures Spliced(s, s, p, len, len)
  {
  }

  lemma ReadBefore(s: Str, t: Str, p: nat, oldlen: nat, newlen: nat, i: nat)
    requires Spliced(s, t, p, oldlen, newlen) && i + 4 <= p
    ensures Get32(t, i) == Get32(s, i)
  {
    assert t[..p][i..i + 4] == s[..p][i..i + 4];
    assert t[..p][i..i + 4] == t[i..i + 4] && s[..p][i..i + 4] == s[i..i + 4];
    Get32Slice(t, i, i + 4, 0);
    Get32Slice(s, i, i + 4, 0);
  }

  /** Replacing the bytes of some tags by an encoding of others replaces the tags. */
  lemma ReplaceTags(strs: Str, s: Str, t: Str, pre: seq<Tok>, before: seq<Tok>, after: seq<Tok>, post: seq<Tok>)
    requires RepAll(strs, s, pre + (before + post))
    requires Spliced(s, t, Size(pre), Size(before), Size(after))
    requires Size(pre) + Size(after) <= |t| && RepAll(strs, Block(t, Size(pre), Size(after)), after)
    ensures RepAll(strs, t, pre + (after + post))
  {
    hide RepAll, Size, Block, Spliced;
    var p, a, b := Size(pre), Size(before), Size(after);
    RepSplit(strs, s, pre, before + post);
    RepSplit(strs, s[p..], before, post);
    Reassemble(s, t, p, a, b);
    RepJoin(strs, Block(t, p, b), after, s[p..][a..], post);
    RepJoin(strs, s[..p], pre, Block(t, p, b) + s[p..][a..], after + post);
  }

  lemma Reassemble(s: Str, t: Str, p: nat, a: nat, b: nat)
    requires Spliced(s, t, p, a, b) && p + b <= |t|
    ensures t == s[..p] + (Block(t, p, b) + s[p..][a..])
  {
    assert t == t[..p] + (t[p..p + b] + t[p + b..]);
    assert s[p..][a..] == s[p + a..];
  }

  lemma BuildProp(strs: Str, t: Str, o: nat, n: Str, d: Str)
    requires o + TokSize(Prop(n, d)) <= |t| && |d| < INT_MAX
    requires Get32(t, o) == PROP && Get32(t, o + 4) == |d| && IsStringAt(strs, Get32(t, o + 8), n)
    requires t[o + 12..o + 12 + |d|] == d
    ensures Reps(strs, Block(t, o, TokSize(Prop(n, d))), Prop(n, d))
  {
    var e := o + TokSize(Prop(n, d));
    Get32Slice(t, o, e, 0);
    Get32Slice(t, o, e, 4);
    Get32Slice(t, o, e, 8);
    SliceSlice(t, o, e, 12, 12 + |d|);
  }
}
