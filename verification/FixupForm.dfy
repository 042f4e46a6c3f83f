/**
 * Which texts are entries of a fixups property, and what each of them says; and a list of entries written out as the
 * compiler does is read back.
 */
module FixupForm {
  import opened Bytes
  import opened Positions
  import opened FixupText

  // ----- Numbers -----

  /** A number as strtoul reads it: white space, a sign or none, digits. */
  predicate IsNumber(space: Str, sign: Str, digits: Str) {
    && (forall c | c in space :: IsSpace(c)) && (sign == [] || sign == [MINUS] || sign == [PLUS])
    && digits != [] && forall c | c in digits :: IsDigit(c)
  }

  /** Its value: the greatest there is if it is too large, and a negative number from above. */
  function Worth(sign: Str, digits: Str): nat {
    var v := Decimal(digits);
    if v >= ULONG then ULONG - 1 else if sign == [MINUS] then (ULONG - v) % ULONG else v
  }

  lemma {:induction false} SpacesIn(space: Str, rest: Str)
    requires (forall c | c in space :: IsSpace(c)) && (rest == [] || !IsSpace(rest[0]))
    ensures Spaces(space + rest) == |space|
    decreases |space|
  {
    if space == [] {
      assert space + rest == rest;
    } else {
      assert space[0] in space && (space + rest)[1..] == space[1..] + rest;
      SpacesIn(space[1..], rest);
    }
  }

  lemma {:induction false} DigitsIn(digits: Str)
    requires forall c | c in digits :: IsDigit(c)
    ensures Digits(digits) == |digits|
    decreases |digits|
  {
    if digits != [] {
      assert digits[0] in digits;
      DigitsIn(digits[1..]);
    }
  }

  lemma {:induction false} DigitsAre(s: Str)
    ensures forall c | c in s[..Digits(s)] :: IsDigit(c)
    decreases |s|
  {
    if s != [] && IsDigit(s[0]) {
      DigitsAre(s[1..]);
      assert s[..Digits(s)] == [s[0]] + s[1..][..Digits(s[1..])];
    }
  }

  lemma {:induction false} SpacesAre(s: Str)
    ensures forall c | c in s[..Spaces(s)] :: IsSpace(c)
    decreases |s|
  {
    if s != [] && IsSpace(s[0]) {
      SpacesAre(s[1..]);
      assert s[..Spaces(s)] == [s[0]] + s[1..][..Spaces(s[1..])];
    }
  }

  lemma NumberCut(space: Str, sign: Str, digits: Str)
    requires IsNumber(space, sign, digits)
    ensures var t := space + sign + digits; var i := |space|; var j := i + |sign|;
            && t[j..] == digits && t[j..j + |digits|] == digits && i < |t| && t[i] == (sign + digits)[0]
            && (sign == [] ==> IsDigit(t[i])) && (sign != [] ==> t[i] == sign[0])
            && (sign + digits != []) && !IsSpace((sign + digits)[0]) && t == space + (sign + digits)
  {
    assert digits[0] in digits;
  }

  lemma NumberRead(space: Str, sign: Str, digits: Str)
    requires IsNumber(space, sign, digits)
    ensures Strtoul(space + sign + digits) == (Worth(sign, digits), |space + sign + digits|)
  {
    hide Decimal, Spaces, Digits, IsSpace;
    var t := space + sign + digits;
    NumberCut(space, sign, digits);
    SpacesIn(space, sign + digits);
    DigitsIn(digits);
    assert Spaces(t) == |space| && Digits(t[|space| + |sign|..]) == |digits|;
  }

  /** Conversely, a text that strtoul reads to its end is a number. */
  lemma NumberForm(t: Str) returns (space: Str, sign: Str, digits: Str)
    requires t != [] && Strtoul(t).1 == |t|
    ensures IsNumber(space, sign, digits) && t == space + sign + digits
  {
    hide Decimal;
    var i := Spaces(t);
    var j := i + if i < |t| && (t[i] == MINUS || t[i] == PLUS) then 1 else 0;
    space, sign, digits := t[..i], t[i..j], t[j..];
    SpacesAre(t);
    DigitsAre(t[j..]);
    assert t[j..][..Digits(t[j..])] == t[j..];
    assert t == space + sign + digits;
  }

  // ----- Entries -----

  lemma {:induction false} FindBehind(a: Str, c: byte, rest: Str)
    requires c !in a
    ensures Find(a + [c] + rest, c) == |a|
    decreases |a|
  {
    if a == [] {
      assert (a + [c] + rest)[0] == c;
    } else {
      assert a[0] in a && (a + [c] + rest)[0] == a[0] && (a + [c] + rest)[1..] == a[1..] + [c] + rest;
      FindBehind(a[1..], c, rest);
    }
  }

  lemma Parts(a: Str, c: byte, rest: Str)
    ensures var s := a + [c] + rest; |a| < |s| && s[..|a|] == a && s[|a| + 1..] == rest
  {
  }

  /** A text is what is in front of a place, what is there, and what is behind. */
  lemma Split(s: Str, i: nat)
    requires i < |s|
    ensures s == s[..i] + [s[i]] + s[i + 1..]
  {
  }

  /** The text path:prop:number. */
  function Entry(path: Str, prop: Str, number: Str): Str {
    path + [COLON] + (prop + [COLON] + number)
  }

  lemma EntryCut(path: Str, prop: Str, number: Str)
    requires COLON !in path && COLON !in prop
    ensures var s := Entry(path, prop, number);
            && Find(s, COLON) == |path| < |s| && s[..|path|] == path
            && s[|path| + 1..] == prop + [COLON] + number
            && Find(prop + [COLON] + number, COLON) == |prop| < |prop + [COLON] + number|
            && (prop + [COLON] + number)[..|prop|] == prop && (prop + [COLON] + number)[|prop| + 1..] == number
  {
    hide Find;
    FindBehind(path, COLON, prop + [COLON] + number);
    FindBehind(prop, COLON, number);
    Parts(path, COLON, prop + [COLON] + number);
    Parts(prop, COLON, number);
  }

  /** s is an entry that says e: a path, the name of a property and a number, which wraps at 32 bits. */
  ghost predicate Says(s: Str, e: Fixup) {
    exists space, sign, digits ::
      && IsNumber(space, sign, digits) && COLON !in e.path && COLON !in e.prop
      && s == Entry(e.path, e.prop, space + sign + digits) && e.off == Worth(sign, digits) % U32
  }

  /** s says e with nothing for the number, which is then 0. */
  ghost predicate SaysNone(s: Str, e: Fixup) {
    COLON !in e.path && COLON !in e.prop && s == Entry(e.path, e.prop, []) && e.off == 0
  }

  /** s is cut at its first two colons. */
  lemma CutEntry(s: Str) returns (path: Str, prop: Str, number: Str)
    requires Find(s, COLON) < |s| && Find(s[Find(s, COLON) + 1..], COLON) < |s| - Find(s, COLON) - 1
    ensures COLON !in path && COLON !in prop && s == Entry(path, prop, number)
  {
    hide Find;
    var i := Find(s, COLON);
    var t := s[i + 1..];
    var j := Find(t, COLON);
    path, prop, number := s[..i], t[..j], t[j + 1..];
    Split(s, i);
    Split(t, j);
  }

  lemma SaysRead(s: Str, e: Fixup)
    requires Says(s, e)
    ensures UfdtEntry(s) == if e.off <= INT_MAX then Some(e) else None
    ensures FdtEntry(s) == if e.prop != [] then Some(e) else None
  {
    hide Find, Decimal, Strtoul, Worth, Entry;
    var space, sign, digits :| && IsNumber(space, sign, digits) && COLON !in e.path && COLON !in e.prop
      && s == Entry(e.path, e.prop, space + sign + digits) && e.off == Worth(sign, digits) % U32;
    NumberRead(space, sign, digits);
    EntryCut(e.path, e.prop, space + sign + digits);
    assert |space + sign + digits| > 0;
  }

  lemma NoneRead(s: Str, e: Fixup)
    requires SaysNone(s, e)
    ensures UfdtEntry(s) == Some(e) && FdtEntry(s) == None
  {
    hide Find, Entry;
    EntryCut(e.path, e.prop, []);
  }

  lemma EntrySays(s: Str) returns (e: Fixup)
    requires Find(s, COLON) < |s| && Find(s[Find(s, COLON) + 1..], COLON) < |s| - Find(s, COLON) - 1
    requires var t := s[Find(s, COLON) + 1..]; var n := t[Find(t, COLON) + 1..]; Strtoul(n).1 == |n|
    ensures Says(s, e) || SaysNone(s, e)
  {
    hide Find, Decimal, Strtoul, Worth, Entry;
    var path, prop, number := CutEntry(s);
    EntryCut(path, prop, number);
    if number == [] {
      e := Fixup(path, prop, 0);
    } else {
      var space, sign, digits := NumberForm(number);
      e := Fixup(path, prop, Worth(sign, digits) % U32);
    }
  }

  /** libfdt reads exactly the entries that name a property and have a number. */
  lemma FdtEntryIff(s: Str, e: Fixup)
    ensures FdtEntry(s) == Some(e) <==> Says(s, e) && e.prop != []
  {
    hide Find, Strtoul, Says, SaysNone;
    if Says(s, e) {
      SaysRead(s, e);
    }
    if FdtEntry(s) == Some(e) {
      var f := EntrySays(s);
      if Says(s, f) {
        SaysRead(s, f);
      } else {
        NoneRead(s, f);
      }
    }
  }

  /** libufdt reads those whose number is none, or is not negative as an int. */
  lemma UfdtEntryIff(s: Str, e: Fixup)
    ensures UfdtEntry(s) == Some(e) <==> (Says(s, e) && e.off <= INT_MAX) || SaysNone(s, e)
  {
    hide Find, Strtoul, Says, SaysNone;
    if Says(s, e) {
      SaysRead(s, e);
    }
    if SaysNone(s, e) {
      NoneRead(s, e);
    }
    if UfdtEntry(s) == Some(e) {
      var f := EntrySays(s);
      if Says(s, f) {
        SaysRead(s, f);
      } else {
        NoneRead(s, f);
      }
    }
  }

  // ----- A list written out -----

  /** A number in decimal. */
  function Numeral(n: nat): Str {
    if n < 10 then [0x30 + n] else Numeral(n / 10) + [0x30 + n % 10]
  }

  lemma {:induction false} NumeralIs(n: nat)
    ensures IsNumber([], [], Numeral(n)) && Decimal(Numeral(n)) == n && 0 !in Numeral(n)
  {
    var s := Numeral(n);
    if n < 10 {
      assert s[..0] == [] && Decimal([]) == 0;
    } else {
      NumeralIs(n / 10);
      assert s[..|s| - 1] == Numeral(n / 10) && s[|s| - 1] == 0x30 + n % 10;
    }
  }

  /** The entries, each ended by a NUL. */
  function Written(es: seq<Fixup>): Str {
    if es == [] then [] else Entry(es[0].path, es[0].prop, Numeral(es[0].off)) + [0] + Written(es[1..])
  }

  predicate Writable(e: Fixup) {
    0 !in e.path && 0 !in e.prop && COLON !in e.path && COLON !in e.prop && e.prop != [] && e.off < U32
  }

  lemma EntryWritten(e: Fixup)
    requires Writable(e)
    ensures Says(Entry(e.path, e.prop, Numeral(e.off)), e) && 0 !in Entry(e.path, e.prop, Numeral(e.off))
  {
    hide Numeral, Decimal;
    NumeralIs(e.off);
    assert [] + [] + Numeral(e.off) == Numeral(e.off);
    assert Worth([], Numeral(e.off)) == e.off;
  }

  /** What the compiler writes for the entries is read as those entries, by libufdt too if no offset is negative. */
  lemma {:induction false} WrittenRead(es: seq<Fixup>)
    requires es != [] && forall e | e in es :: Writable(e)
    ensures FdtEntries(Written(es)) == Some(es)
    decreases |es|
  {
    hide FdtEntry, Says, Entry, Writable, Numeral, Find;
    var e := es[0];
    assert e in es && forall f | f in es[1..] :: f in es;
    var s, rest := Entry(e.path, e.prop, Numeral(e.off)), Written(es[1..]);
    EntryWritten(e);
    FdtEntryIff(s, e);
    assert e.prop != [] by { HasName(e); }
    FindBehind(s, 0, rest);
    Parts(s, 0, rest);
    if es[1..] == [] {
      assert es == [e];
    } else {
      WrittenRead(es[1..]);
      assert rest != [] && [e] + es[1..] == es;
    }
  }

  lemma HasName(e: Fixup)
    requires Writable(e)
    ensures e.prop != []
  {
  }

  lemma WrittenSame(es: seq<Fixup>)
    requires es != [] && forall e | e in es :: Writable(e) && e.off <= INT_MAX
    ensures Written(es) != [] && Written(es)[|Written(es)| - 1] == 0 && UfdtEntries(Written(es)) == Some(es)
  {
    hide Written, FdtEntries, UfdtEntries;
    WrittenRead(es);
    SameEntries(Written(es));
  }
}
