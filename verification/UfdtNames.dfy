/**
 * Property names in an unflattened tree (libs/libufdt/ufdt_convert.c): pointers into the strings blocks of the blobs
 * the tree was made of, and where such a string is once those blocks have been put together.
 */
module UfdtNames {
  import opened Bytes
  import opened Encoding

  /** The strings block of one of the tree's blobs, and the address it is at. */
  datatype Table = Table(start: nat, text: Str)

  predicate InTable(t: Table, s: nat) {
    t.start <= s < t.start + |t.text|
  }

  /** At address s, in the first of the tables that has it, starts the string n. */
  predicate PointsTo(tables: seq<Table>, s: nat, n: Str) {
    tables != [] && if InTable(tables[0], s) then IsStringAt(tables[0].text, s - tables[0].start, n)
      else PointsTo(tables[1..], s, n)
  }

  /** Tables put in front change no name, if the address is in none of them. */
  lemma {:induction false} PointsToBehind(front: seq<Table>, tables: seq<Table>, s: nat, n: Str)
    requires PointsTo(tables, s, n) && forall t | t in front :: !InTable(t, s)
    ensures PointsTo(front + tables, s, n)
  {
    if front == [] {
      assert front + tables == tables;
    } else {
      assert (front + tables)[0] == front[0] && (front + tables)[1..] == front[1..] + tables;
      PointsToBehind(front[1..], tables, s, n);
    }
  }

  // ----- All strings blocks together -----

  /** The tables in reversed order. */
  function Reversed(tables: seq<Table>): (s: Str)
    ensures |s| == TotalText(tables)
  {
    if tables == [] then [] else Reversed(tables[1..]) + tables[0].text
  }

  function TotalText(tables: seq<Table>): nat {
    if tables == [] then 0 else TotalText(tables[1..]) + |tables[0].text|
  }

  /** What ufdt_get_string_off returns for the address s. */
  function StringOff(tables: seq<Table>, s: nat): (r: int)
  {
    if tables == [] then 0 else if InTable(tables[0], s) then s - (tables[0].start + |tables[0].text|) else
      (if StringOff(tables[1..], s) == 0 then 0 else StringOff(tables[1..], s) - |tables[0].text|)
  }

  lemma ShiftedString(text: Str, pre: Str, post: Str, i: nat, n: Str)
    requires IsStringAt(text, i, n)
    ensures IsStringAt(pre + text + post, |pre| + i, n)
  {
    assert (pre + text + post)[|pre| + i..|pre| + i + |n|] == text[i..i + |n|];
  }

  /**
   * The negative offset selects, counted from the end of all tables together, the string that the address points to.
   */
  lemma {:induction false} OffSelects(tables: seq<Table>, s: nat, n: Str)
    requires PointsTo(tables, s, n)
    ensures var r := StringOff(tables, s);
            r < 0 <= TotalText(tables) + r && IsStringAt(Reversed(tables), TotalText(tables) + r, n)
  {
    var t := tables[0];
    var back := Reversed(tables[1..]);
    if InTable(t, s) {
      ShiftedString(t.text, back, [], s - t.start, n);
      assert back + t.text + [] == back + t.text;
    } else {
      OffSelects(tables[1..], s, n);
      var i := TotalText(tables[1..]) + StringOff(tables[1..], s);
      ShiftedString(back, [], t.text, i, n);
      assert [] + back + t.text == back + t.text;
    }
  }

  lemma {:induction false} OffFrom(tables: seq<Table>, i: nat, s: nat)
    requires i < |tables| && forall k | 0 <= k < i :: !InTable(tables[k], s)
    requires InTable(tables[i], s)
    ensures StringOff(tables, s) == s - (tables[i].start + |tables[i].text|) - TotalText(tables[..i])
  {
    if i == 0 {
      assert tables[..0] == [];
    } else {
      forall k | 0 <= k < i - 1
        ensures !InTable(tables[1..][k], s)
      {
        assert !InTable(tables[k + 1], s);
      }
      OffFrom(tables[1..], i - 1, s);
      assert tables[..i][1..] == tables[1..][..i - 1] && tables[..i][0] == tables[0];
    }
  }

  lemma {:induction false} OffNone(tables: seq<Table>, s: nat)
    requires forall k | 0 <= k < |tables| :: !InTable(tables[k], s)
    ensures StringOff(tables, s) == 0
  {
    if tables != [] {
      OffNone(tables[1..], s);
    }
  }

  lemma {:induction false} TotalMore(tables: seq<Table>, i: nat)
    requires i < |tables|
    ensures TotalText(tables[..i + 1]) == TotalText(tables[..i]) + |tables[i].text|
    ensures TotalText(tables[..i]) <= TotalText(tables) && tables[..|tables|] == tables
    decreases i
  {
    TotalSplit(tables[..i], tables[i..]);
    TotalSplit(tables[..i], [tables[i]]);
    assert tables[..i] + tables[i..] == tables && tables[..i] + [tables[i]] == tables[..i + 1];
    assert TotalText([tables[i]]) == TotalText([tables[i]][1..]) + |tables[i].text| && [tables[i]][1..] == [];
  }

  lemma {:induction false} TotalSplit(a: seq<Table>, b: seq<Table>)
    ensures TotalText(a + b) == TotalText(a) + TotalText(b) && Reversed(a + b) == Reversed(b) + Reversed(a)
  {
    if a == [] {
      assert a + b == b && Reversed(b) + [] == Reversed(b);
    } else {
      assert (a + b)[0] == a[0] && (a + b)[1..] == a[1..] + b;
      TotalSplit(a[1..], b);
    }
  }

  /** ufdt_get_string_off. */
  method GetStringOff(tables: seq<Table>, s: nat) returns (r: int)
    ensures r == StringOff(tables, s)
  {
    r := 0;
    var i := 0;
    assert tables[..0] == [];
    while i < |tables|
      invariant 0 <= i <= |tables| && r + TotalText(tables[..i]) == 0
      invariant forall k | 0 <= k < i :: !InTable(tables[k], s)
    {
      TotalMore(tables, i);
      var t := tables[i];
      if t.start <= s && s < t.start + |t.text| {
        OffFrom(tables, i, s);
        return r + (s - (t.start + |t.text|));
      }
      r := r - |t.text|;
      i := i + 1;
    }
    OffNone(tables, s);
    r := 0;
  }
}
