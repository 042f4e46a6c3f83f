/**
 * The half-built blob of the sequential writer (libs/libfdt/fdt_sw.c): the strings block grows down from the end of
 * the buffer, so a property's name offset is negative, counted back from that end, until the blob is finished.
 */
module SwFormat {
  import opened Bytes
  import opened Tree
  import opened Encoding
  import opened Tags

  /** 32-bit addition. */
  function Wrap(c: nat, n: nat): (r: nat)
    requires c < U32 && n < U32
    ensures r < U32
  {
    if c + n < U32 then c + n else c + n - U32
  }

  /** What fdt_finish makes of the bytes b of a property when n bytes of strings have been written. */
  function Relocate(b: Str, n: nat): (r: Str)
    requires 12 <= |b| && n < U32
    ensures |r| == |b|
  {
    Overwrite(b, 8, Put32(Wrap(Get32(b, 8), n)))
  }

  lemma Relocated(b: Str, n: nat)
    requires 12 <= |b| && n < U32
    ensures var r := Relocate(b, n);
            Get32(r, 0) == Get32(b, 0) && Get32(r, 4) == Get32(b, 4) && Get32(r, 8) == Wrap(Get32(b, 8), n)
              && r[12..] == b[12..]
  {
    var v := Put32(Wrap(Get32(b, 8), n));
    OverwriteCell(b, 8, Wrap(Get32(b, 8), n));
    OverwriteElse(b, 8, v, 0);
    OverwriteElse(b, 8, v, 4);
    assert b[..8] + v + b[12..] == Overwrite(b, 8, v);
  }

  /** b is t as the writer has it, with strs as what it has written of the strings block. */
  predicate SwReps(strs: Str, b: Str, t: Tok)
    requires |strs| < U32
  {
    if t.Prop? then 12 <= |b| && Reps(strs, Relocate(b, |strs|), t) else Reps(strs, b, t)
  }

  predicate SwRepAll(strs: Str, b: Str, ts: seq<Tok>)
    requires |strs| < U32
    ensures SwRepAll(strs, b, ts) ==> |b| == Size(ts)
  {
    if ts == [] then b == [] else
      var n := TokSize(ts[0]);
      n <= |b| && SwReps(strs, b[..n], ts[0]) && SwRepAll(strs, b[n..], ts[1..])
  }

  lemma {:induction false} SwJoin(strs: Str, b: Str, ts: seq<Tok>, d: Str, t: Tok)
    requires |strs| < U32 && SwRepAll(strs, b, ts) && SwReps(strs, d, t) && |d| == TokSize(t)
    ensures SwRepAll(strs, b + d, ts + [t])
  {
    hide SwReps;
    if ts == [] {
      assert ts + [t] == [t] && b + d == d && d[..|d|] == d;
      assert SwRepAll(strs, d[|d|..], []);
    } else {
      var n := TokSize(ts[0]);
      SwJoin(strs, b[n..], ts[1..], d, t);
      CatSlices(ts, [t], 1);
      CatSlices(b, d, n);
      assert (ts + [t])[0] == ts[0];
    }
  }

  /** Names written in front of the strings block leave every name where it was, counted from the end. */
  lemma MoreNames(pre: Str, strs: Str, b: Str, t: Tok)
    requires |pre + strs| < U32 && SwReps(strs, b, t)
    ensures SwReps(pre + strs, b, t)
  {
    if t.Prop? {
      hide Overwrite, Get32;
      Relocated(b, |strs|);
      Relocated(b, |pre + strs|);
      var i := Wrap(Get32(b, 8), |strs|);
      var n, d := t.pname, t.data;
      assert (pre + strs)[|pre| + i..|pre| + i + |n|] == strs[i..i + |n|];
      assert Relocate(b, |pre + strs|)[12..12 + |d|] == b[12..][..|d|] == Relocate(b, |strs|)[12..12 + |d|];
    }
  }

  lemma {:induction false} MoreNamesAll(pre: Str, strs: Str, b: Str, ts: seq<Tok>)
    requires |pre + strs| < U32 && SwRepAll(strs, b, ts)
    ensures SwRepAll(pre + strs, b, ts)
  {
    hide SwReps;
    if ts != [] {
      MoreNames(pre, strs, b[..TokSize(ts[0])], ts[0]);
      MoreNamesAll(pre, strs, b[TokSize(ts[0])..], ts[1..]);
    }
  }

  /** fdt_next_tag walks the half-built structure block too: it does not look at name offsets. */
  lemma SwTagStep(strs: Str, b: Str, start: nat, t: Tok)
    requires Aligned(start) && start + TokSize(t) <= |b| < INT_MAX && |strs| < U32
    requires SwReps(strs, b[start..start + TokSize(t)], t)
    ensures TagStep(b, start) == (TagOf(t), start + TokSize(t))
  {
    var x := b[start..start + TokSize(t)];
    if t.Prop? {
      Relocated(x, |strs|);
      PropStep(b, start, x, t.pname, t.data);
    } else {
      TagStepReps(strs, b, start, t);
    }
  }

  // ----- The tokens as written -----

  lemma WrittenBegin(b: Str, n: Str)
    requires |b| == TokSize(Begin(n)) && 0 !in n && b[..5 + |n|] == Put32(BEGIN_NODE) + n + [0]
    ensures Reps([], b, Begin(n))
  {
    var w := Put32(BEGIN_NODE) + n + [0];
    PutGet32(BEGIN_NODE);
    assert forall k | 0 <= k < 5 + |n| :: b[k] == b[..5 + |n|][k] == w[k];
    assert Get32(b, 0) == Get32(Put32(BEGIN_NODE), 0);
    assert b[4..4 + |n|] == w[4..4 + |n|] == n;
  }

  lemma WrittenTag(strs: Str, t: Tok)
    requires t.EndNode? || t.End?
    ensures Reps(strs, Put32(TagOf(t)), t)
  {
    PutGet32(TagOf(t));
  }

  lemma WrittenProp(strs: Str, b: Str, n: Str, d: Str, i: nat)
    requires |b| == TokSize(Prop(n, d)) && |d| < INT_MAX && |strs| < U32 && i < |strs| && IsStringAt(strs, i, n)
    requires b[..12] == Put32(PROP) + Put32(|d|) + Put32(U32 - (|strs| - i)) && b[12..12 + |d|] == d
    ensures SwReps(strs, b, Prop(n, d))
  {
    var w := Put32(PROP) + Put32(|d|) + Put32(U32 - (|strs| - i));
    assert forall k | 0 <= k < 12 :: b[k] == b[..12][k] == w[k];
    PutGet32(PROP);
    PutGet32(|d|);
    PutGet32(U32 - (|strs| - i));
    assert Get32(b, 0) == Get32(Put32(PROP), 0) && Get32(b, 4) == Get32(Put32(|d|), 0);
    assert Get32(b, 8) == Get32(Put32(U32 - (|strs| - i)), 0);
    hide Overwrite, Get32, Put32;
    Relocated(b, |strs|);
    assert Wrap(Get32(b, 8), |strs|) == i;
    assert Relocate(b, |strs|)[12..12 + |d|] == Relocate(b, |strs|)[12..][..|d|] == b[12..][..|d|] == b[12..12 + |d|];
  }

  // ----- Relocation, one tag after the other -----

  /** The structure block b while it is being corrected: ts before offset o have been, us from there on have not. */
  ghost predicate Correcting(strs: Str, b: Str, o: nat, ts: seq<Tok>, us: seq<Tok>)
    requires |strs| < U32
  {
    o <= |b| && RepAll(strs, b[..o], ts) && SwRepAll(strs, b[o..], us)
  }

  lemma CorrectOne(strs: Str, b: Str, c: Str, o: nat, ts: seq<Tok>, us: seq<Tok>)
    requires |strs| < U32 && us != [] && Correcting(strs, b, o, ts, us)
    requires c == if us[0].Prop? && o + 12 <= |b| then Overwrite(b, o + 8, Put32(Wrap(Get32(b, o + 8), |strs|))) else b
    ensures Correcting(strs, c, o + TokSize(us[0]), ts + [us[0]], us[1..])
  {
    hide Reps;
    var n := TokSize(us[0]);
    var x := b[o..][..n];
    var y := if us[0].Prop? then Relocate(x, |strs|) else x;
    SlicesOf(b, c, o, n, if us[0].Prop? then Wrap(Get32(x, 8), |strs|) else 0, us[0].Prop?);
    RepOne(strs, y, us[0]);
    RepJoin(strs, b[..o], ts, y, [us[0]]);
  }

  lemma SlicesOf(b: Str, c: Str, o: nat, n: nat, v: nat, changed: bool)
    requires o + n <= |b| && v < U32 && (changed ==> 12 <= n)
    requires c == if changed then Overwrite(b, o + 8, Put32(v)) else b
    ensures c[..o + n] == b[..o] + (if changed then Overwrite(b[o..][..n], 8, Put32(v)) else b[o..][..n])
    ensures c[o + n..] == b[o..][n..]
    ensures changed ==> Get32(b[o..][..n], 8) == Get32(b, o + 8)
  {
    var x := b[o..][..n];
    assert b == b[..o] + x + b[o + n..];
    if changed {
      var w := Put32(v);
      assert b[..o + 8] == b[..o] + x[..8] && b[o + 12..] == x[12..] + b[o + n..];
      assert c == b[..o] + (x[..8] + w + x[12..]) + b[o + n..];
      assert x[..8] + w + x[12..] == Overwrite(x, 8, w);
    }
  }
}
