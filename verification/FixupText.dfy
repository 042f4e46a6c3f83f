/**
 * The text of a fixups property, path:property:offset for each reference, as the two overlay engines read it
 * (overlay_fixup_phandle in libs/libfdt/fdt_overlay.c, ufdt_get_fixup_location in libs/libufdt/ufdt_overlay.c).
 */
module FixupText {
  import opened Bytes
  import opened Positions

  const COLON: int := 0x3a
  const MINUS: int := 0x2d
  const PLUS: int := 0x2b
  const ULONG: int := 0x1_0000_0000_0000_0000

  /** One entry of a fixups property: the cell at byte off of property prop of the node at path. */
  datatype Fixup = Fixup(path: Str, prop: Str, off: nat)

  /** memchr: the first place of c in s, or the length of s. */
  function Find(s: Str, c: int): (i: nat)
    ensures i <= |s| && c !in s[..i] && (i < |s| ==> s[i] == c)
  {
    if s == [] || s[0] == c then 0 else
      var i := 1 + Find(s[1..], c);
      assert s[..i] == [s[0]] + s[1..][..i - 1];
      i
  }

  // ----- Numbers -----

  predicate IsSpace(c: int) {
    c == 0x20 || 9 <= c <= 13
  }

  predicate IsDigit(c: int) {
    0x30 <= c <= 0x39
  }

  function Spaces(s: Str): (n: nat)
    ensures n <= |s|
  {
    if s == [] || !IsSpace(s[0]) then 0 else 1 + Spaces(s[1..])
  }

  function Digits(s: Str): (n: nat)
    ensures n <= |s|
  {
    if s == [] || !IsDigit(s[0]) then 0 else 1 + Digits(s[1..])
  }

  function Decimal(s: Str): nat {
    if s == [] then 0 else Decimal(s[..|s| - 1]) * 10 + if IsDigit(s[|s| - 1]) then s[|s| - 1] - 0x30 else 0
  }

  /** strtoul, base 10, on a 64-bit unsigned long: the value, and how many bytes have been read. */
  function Strtoul(s: Str): (r: (nat, nat))
    ensures r.0 < ULONG && r.1 <= |s|
  {
    var i := Spaces(s);
    var j := i + if i < |s| && (s[i] == MINUS || s[i] == PLUS) then 1 else 0;
    var n := Digits(s[j..]);
    if n == 0 then (0, 0) else
      var v := Decimal(s[j..j + n]);
      (if v >= ULONG then ULONG - 1 else if s[i] == MINUS && v > 0 then ULONG - v else v, j + n)
  }

  // ----- One entry -----

  /** libfdt: an entry with a property name and a number; the number is kept in 32 bits. */
  function FdtEntry(s: Str): Option<Fixup> {
    var i := Find(s, COLON);
    if i == |s| || i == |s| - 1 then None else
      var t := s[i + 1..];
      var j := Find(t, COLON);
      if j == |t| || j == 0 then None else
        var (v, used) := Strtoul(t[j + 1..]);
        if used != |t| - j - 1 || used == 0 then None else Some(Fixup(s[..i], t[..j], v % U32))
  }

  /** libufdt: the property name and the number may be empty, but the number must not be negative as an int. */
  function UfdtEntry(s: Str): Option<Fixup> {
    var i := Find(s, COLON);
    if i == |s| then None else
      var t := s[i + 1..];
      var j := Find(t, COLON);
      if j == |t| then None else
        var (v, used) := Strtoul(t[j + 1..]);
        if used != |t| - j - 1 || v % U32 > INT_MAX then None else Some(Fixup(s[..i], t[..j], v % U32))
  }

  /** What libfdt reads, libufdt reads too unless the offset is negative as an int. */
  lemma EntriesAgree(s: Str)
    ensures FdtEntry(s).Some? ==> UfdtEntry(s) == if FdtEntry(s).value.off <= INT_MAX then FdtEntry(s) else None
  {
  }

  // ----- The whole property -----

  /** The entries libfdt reads: each ends with a NUL, and there is at least one. */
  function FdtEntries(d: Str): Option<seq<Fixup>>
    decreases |d|
  {
    var n := Find(d, 0);
    if n == |d| then None else
      match FdtEntry(d[..n])
      case None => None
      case Some(e) =>
        if n + 1 == |d| then Some([e]) else
          match FdtEntries(d[n + 1..]) case None => None case Some(es) => Some([e] + es)
  }

  /** The entries libufdt reads, of a value that ends with a NUL. */
  function UfdtEntries(d: Str): Option<seq<Fixup>>
    requires d == [] || d[|d| - 1] == 0
    decreases |d|
  {
    if d == [] then Some([]) else
      var n := Find(d, 0);
      if n == |d| then None else
        match UfdtEntry(d[..n])
        case None => None
        case Some(e) =>
          match UfdtEntries(d[n + 1..]) case None => None case Some(es) => Some([e] + es)
  }

  /** A property that libfdt can read, with no offset negative as an int, has the same entries for libufdt. */
  lemma {:induction false} SameEntries(d: Str)
    requires FdtEntries(d).Some? && forall e | e in FdtEntries(d).value :: e.off <= INT_MAX
    ensures d != [] && d[|d| - 1] == 0 && UfdtEntries(d) == FdtEntries(d)
    decreases |d|
  {
    hide Find, FdtEntry, UfdtEntry;
    var n := Find(d, 0);
    EntriesAgree(d[..n]);
    var e := FdtEntry(d[..n]).value;
    assert e in FdtEntries(d).value;
    if n + 1 < |d| {
      var es := FdtEntries(d[n + 1..]).value;
      assert FdtEntries(d).value == [e] + es;
      assert forall x | x in es :: x in FdtEntries(d).value;
      SameEntries(d[n + 1..]);
      assert d[n + 1..][|d| - n - 2] == d[|d| - 1];
    } else {
      assert d[n + 1..] == [];
      assert UfdtEntries([]) == Some([]) && [e] + [] == [e];
    }
  }
}
