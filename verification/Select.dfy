/**
 * The selection of device trees (libs/DTSelectLib/dt_select.c): one walk over an image of appended blobs picks a base
 * tree, a chip overlay and a board overlay.
 */
module Select {
  import opened Bytes
  import opened Tree
  import opened Encoding
  import opened Positions
  import opened Tags
  import opened FdtRead
  import opened Overlay
  import opened Check
  import opened Paths

  const BOARD_ID: Str := [0x2f, 0x62, 0x6f, 0x61, 0x72, 0x64, 0x2d, 0x69, 0x64, 0x2f]  // /board-id/
  const CHIP_INFO: Str := [0x63, 0x68, 0x69, 0x70, 0x2d, 0x69, 0x6e, 0x66, 0x6f]  // chip-info
  const IS_OVERLAY: Str := [0x69, 0x73, 0x2d, 0x6f, 0x76, 0x65, 0x72, 0x6c, 0x61, 0x79]  // is-overlay
  const BOARD_INFO: Str := [0x62, 0x6f, 0x61, 0x72, 0x64, 0x2d, 0x69, 0x6e, 0x66, 0x6f]  // board-info
  const PROC_NAME: Str := [0x70, 0x72, 0x6f, 0x63, 0x2d, 0x6e, 0x61, 0x6d, 0x65]  // proc-name
  const OEM_VAR: Str := [0x6f, 0x65, 0x6d, 0x2d, 0x76, 0x61, 0x72]  // oem-var

  const GET_ROOT_NODE_FAILED := -6
  const BY_ZERO := 101  // a division by zero, of which C does not say what comes out

  // ----- What is looked for -----

  datatype Kind = BaseDtb | SocDtbo | PlatDtbo

  /** One entry of chip-info, and one of board-info. */
  datatype Chip = Chip(family: nat, id: nat, major: nat, minor: nat)
  datatype Plat = Plat(ptype: nat, sub: nat, major: nat, minor: nat)

  /** A property that the client asks for: one of its values, of size bytes each, is to be value. */
  datatype Want = Want(name: Str, size: nat, value: nat)

  datatype Input = Input(chip: Chip, plat: Plat, oem: nat, baseName: Option<Str>, socName: Option<Str>,
    platName: Option<Str>, wants: seq<Want>)

  /** What has been read from an entry of the image that is a candidate. */
  datatype Card = Card(kind: Kind, chip: Chip, plat: Plat)

  // ----- Reading the properties of the node /board-id/ -----

  /** The big-endian number that the bytes of d are. */
  function Number(d: Str): nat {
    if d == [] then 0 else Number(d[..|d| - 1]) * 0x100 + d[|d| - 1] as int
  }

  function ChipAt(d: Str): Chip
    requires |d| >= 8
  {
    Chip(Number(d[..2]), Number(d[2..4]), Number(d[4..6]), Number(d[6..8]))
  }

  /** The first entry of chip-info of the family. */
  function FirstChip(d: Str, family: nat): Option<Chip> {
    if |d| < 8 then None else
    if ChipAt(d).family == family then Some(ChipAt(d)) else FirstChip(d[8..], family)
  }

  function PlatAt(d: Str): Plat
    requires |d| >= 4
  {
    Plat(d[0] as int, d[1] as int, d[2] as int, d[3] as int)
  }

  /** The first entry of board-info of the type. */
  function FirstPlat(d: Str, ptype: nat): Option<Plat> {
    if |d| < 4 then None else
    if PlatAt(d).ptype == ptype then Some(PlatAt(d)) else FirstPlat(d[4..], ptype)
  }

  /** One of the values of n bytes in d is v. */
  predicate HasNumber(d: Str, n: nat, v: nat)
    requires n > 0
  {
    |d| >= n && (Number(d[..n]) == v || HasNumber(d[n..], n, v))
  }

  /** One of the strings in d starts with w. */
  predicate StartsSome(d: Str, w: Str) {
    d != [] && (w <= CStr(d) || (|CStr(d)| < |d| && StartsSome(d[|CStr(d)| + 1..], w)))
  }

  function ChipOf(p: Pos, input: Input): Option<Chip>
    requires p.f.SubF?
  {
    match Read(p, CHIP_INFO)
    case Some(d) => if |d| % 8 == 0 then FirstChip(d, input.chip.family) else None
    case None => None
  }

  const NO_PLAT := Plat(0, 0, 0, 0)

  /**
   * _identify_blob_type_and_get_platforminfo: what kind of tree the entry is, and its board-info. An is-overlay
   * property that is not empty has its length divided by 0, the size of a boolean
   * (libs/DTBExtnLib/DTBExtnLib_prop.c).
   */
  function KindOf(p: Pos, input: Input): Res<Option<(Kind, Plat)>>
    requires p.f.SubF?
  {
    match Read(p, IS_OVERLAY)
    case None => Ok(Some((BaseDtb, NO_PLAT)))
    case Some(flag) => if flag != [] then Err(BY_ZERO) else Ok(OverlayKind(p, input))
  }

  function OverlayKind(p: Pos, input: Input): Option<(Kind, Plat)>
    requires p.f.SubF?
  {
    match Read(p, BOARD_INFO)
    case None => Some((SocDtbo, NO_PLAT))
    case Some(d) =>
      if |d| % 4 != 0 then None else
        match FirstPlat(d, input.plat.ptype)
        case None => None
        case Some(t) => Some((PlatDtbo, t))
  }

  function NameFor(kind: Kind, input: Input): Option<Str> {
    match kind
    case BaseDtb => input.baseName
    case SocDtbo => input.socName
    case PlatDtbo => input.platName
  }

  /** _validate_compatible_string. */
  predicate NameFits(p: Pos, kind: Kind, input: Input)
    requires p.f.SubF?
  {
    match NameFor(kind, input)
    case None => true
    case Some(w) =>
      match Read(p, PROC_NAME)
      case None => false
      case Some(d) => d != [] && (w == [] || StartsSome(d[..|d| - 1] + [0], w))
  }

  predicate WantFits(p: Pos, w: Want)
    requires p.f.SubF?
  {
    match Read(p, w.name)
    case None => false
    case Some(d) => w.size in {1, 2, 4, 8} && d != [] && |d| % w.size == 0 && HasNumber(d, w.size, w.value)
  }

  /** _is_property_list_valid. */
  predicate WantsFit(p: Pos, wants: seq<Want>)
    requires p.f.SubF?
  {
    forall w | w in wants :: WantFits(p, w)
  }

  /** _validate_oem_variant. */
  predicate OemFits(p: Pos, input: Input)
    requires p.f.SubF?
  {
    match Read(p, OEM_VAR)
    case None => true
    case Some(d) => d != [] && |d| % 4 == 0 && HasNumber(d, 4, input.oem)
  }

  /** _is_it_dtb_dtbo_candidate: what the entry with the node /board-id/ at p is, if it is a candidate. */
  function CardOf(p: Pos, input: Input): Res<Option<Card>>
    requires p.f.SubF?
  {
    match ChipOf(p, input)
    case None => Ok(None)
    case Some(c) =>
      match KindOf(p, input)
      case Err(code) => Err(code)
      case Ok(None) => Ok(None)
      case Ok(Some(k)) => Ok(if NameFits(p, k.0, input) && WantsFit(p, input.wants) then Some(Card(k.0, c, k.1))
        else None)
  }

  // ----- What the readings mean -----

  /** A value of one, two, four or eight bytes is the number that its bytes are, the first the most significant. */
  lemma NumberIs(d: Str)
    ensures |d| == 1 ==> Number(d) == d[0] as int
    ensures |d| == 2 ==> Number(d) == (d[0] as int) * 0x100 + d[1] as int
    ensures |d| == 4 ==> Number(d) == Get32(d, 0)
    ensures |d| == 8 ==> Number(d) == Get32(d, 0) * U32 + Get32(d, 4)
  {
    hide Number, Get32;
    NumberNone();
    if |d| == 1 {
      NumberLast(d);
      assert d[..0] == [];
    } else if |d| == 2 {
      NumberIs(d[..1]);
      NumberLast(d);
    } else if |d| == 4 {
      NumberTwo(d);
    } else if |d| == 8 {
      NumberCat(d[..4], d[4..]);
      NumberTwo(d[..4]);
      NumberTwo(d[4..]);
      assert d[..4] + d[4..] == d;
      Get32Slice(d, 0, 4, 0);
      Get32Slice(d, 4, 8, 0);
      assert d[..4] == d[0..4] && d[4..] == d[4..8] && Scale(4) == U32;
    }
  }

  lemma NumberNone()
    ensures Number([]) == 0
  {
  }

  lemma NumberLast(d: Str)
    requires d != []
    ensures Number(d) == Number(d[..|d| - 1]) * 0x100 + d[|d| - 1] as int
  {
  }

  lemma NumberTwo(d: Str)
    requires |d| == 4
    ensures Number(d) == Get32(d, 0)
  {
    hide Number;
    NumberNone();
    NumberLast(d);
    NumberLast(d[..3]);
    NumberLast(d[..2]);
    NumberLast(d[..1]);
    assert d[..3][..2] == d[..2] && d[..2][..1] == d[..1] && d[..1][..0] == [];
  }

  function Scale(n: nat): nat {
    if n == 0 then 1 else Scale(n - 1) * 0x100
  }

  lemma {:induction false} NumberCat(a: Str, b: Str)
    ensures Number(a + b) == Number(a) * Scale(|b|) + Number(b)
    decreases |b|
  {
    if b == [] {
      assert a + b == a;
    } else {
      var c, x := b[..|b| - 1], b[|b| - 1] as int;
      assert (a + b)[..|a + b| - 1] == a + c && (a + b)[|a + b| - 1] == b[|b| - 1];
      NumberCat(a, c);
      assert Number(a) * Scale(|c|) * 0x100 == Number(a) * (Scale(|c|) * 0x100);
    }
  }

  /** The entry found is the first one of the family, and none is found only if there is none. */
  lemma {:induction false} FirstChipIs(d: Str, family: nat)
    ensures match FirstChip(d, family)
            case None => forall i: nat | 8 * i + 8 <= |d| :: ChipAt(d[8 * i..]).family != family
            case Some(c) => exists i: nat :: 8 * i + 8 <= |d| && ChipAt(d[8 * i..]) == c && c.family == family
                                             && forall j: nat | j < i :: ChipAt(d[8 * j..]).family != family
    decreases |d|
  {
    hide ChipAt;
    if |d| >= 8 {
      assert d[8 * 0..] == d;
      if ChipAt(d).family != family {
        FirstChipIs(d[8..], family);
        assert forall i: nat | 8 * i + 8 <= |d[8..]| :: d[8..][8 * i..] == d[8 * (i + 1)..];
        forall i: nat | 0 < i && 8 * i + 8 <= |d|
          ensures d[8 * i..] == d[8..][8 * (i - 1)..]
        {
        }
        if FirstChip(d[8..], family).Some? {
          var i: nat :| 8 * i + 8 <= |d[8..]| && ChipAt(d[8..][8 * i..]) == FirstChip(d[8..], family).value
                        && forall j: nat | j < i :: ChipAt(d[8..][8 * j..]).family != family;
          assert ChipAt(d[8 * (i + 1)..]) == FirstChip(d, family).value;
        }
      }
    }
  }

  lemma {:induction false} FirstPlatIs(d: Str, ptype: nat)
    ensures match FirstPlat(d, ptype)
            case None => forall i: nat | 4 * i + 4 <= |d| :: PlatAt(d[4 * i..]).ptype != ptype
            case Some(c) => exists i: nat :: 4 * i + 4 <= |d| && PlatAt(d[4 * i..]) == c && c.ptype == ptype
                                             && forall j: nat | j < i :: PlatAt(d[4 * j..]).ptype != ptype
    decreases |d|
  {
    hide PlatAt;
    if |d| >= 4 {
      assert d[4 * 0..] == d;
      if PlatAt(d).ptype != ptype {
        FirstPlatIs(d[4..], ptype);
        assert forall i: nat | 4 * i + 4 <= |d[4..]| :: d[4..][4 * i..] == d[4 * (i + 1)..];
        forall i: nat | 0 < i && 4 * i + 4 <= |d|
          ensures d[4 * i..] == d[4..][4 * (i - 1)..]
        {
        }
        if FirstPlat(d[4..], ptype).Some? {
          var i: nat :| 4 * i + 4 <= |d[4..]| && PlatAt(d[4..][4 * i..]) == FirstPlat(d[4..], ptype).value
                        && forall j: nat | j < i :: PlatAt(d[4..][4 * j..]).ptype != ptype;
          assert PlatAt(d[4 * (i + 1)..]) == FirstPlat(d, ptype).value;
        }
      }
    }
  }

  /** The values of n bytes each that d is made of, and what is left over left out. */
  function Values(d: Str, n: nat): seq<nat>
    requires n > 0
  {
    if |d| < n then [] else [Number(d[..n])] + Values(d[n..], n)
  }

  lemma {:induction false} ValuesCount(d: Str, n: nat)
    requires n > 0
    ensures n * |Values(d, n)| <= |d| < n * |Values(d, n)| + n
    decreases |d|
  {
    if |d| >= n {
      ValuesCount(d[n..], n);
    }
  }

  /** v is found exactly if it is one of the values. */
  lemma {:induction false} HasNumberIs(d: Str, n: nat, v: nat)
    requires n > 0
    ensures HasNumber(d, n, v) <==> v in Values(d, n)
    decreases |d|
  {
    hide Number;
    if |d| >= n {
      HasNumberIs(d[n..], n, v);
    }
  }

  /** A string of d begins at offset i, and with w. */
  predicate StringThere(d: Str, w: Str, i: nat) {
    i < |d| && (i == 0 || d[i - 1] == 0) && w <= CStr(d[i..])
  }

  ghost predicate SomeString(d: Str, w: Str) {
    exists i :: StringThere(d, w, i)
  }

  /** w is found exactly if one of the strings begins with it. */
  lemma {:induction false} StartsSomeIs(d: Str, w: Str)
    ensures StartsSome(d, w) <==> SomeString(d, w)
    decreases |d|
  {
    if d != [] {
      var n := |CStr(d)|;
      CStrStart(d);
      assert d[0..] == d;
      if w <= CStr(d) {
        assert StringThere(d, w, 0);
      } else {
        forall i: nat | 0 < i <= n
          ensures !StringThere(d, w, i)
        {
        }
        if n < |d| {
          StartsSomeIs(d[n + 1..], w);
          forall i: nat | n < i < |d|
            ensures StringThere(d, w, i) <==> StringThere(d[n + 1..], w, i - n - 1)
          {
            assert d[n + 1..][i - n - 1..] == d[i..];
          }
          if StartsSome(d[n + 1..], w) {
            var i: nat :| StringThere(d[n + 1..], w, i);
            assert i + n + 1 - n - 1 == i && StringThere(d, w, i + n + 1);
          }
        }
      }
    }
  }

  /** A string ends at the first NUL. */
  lemma {:induction false} CStrStart(d: Str)
    ensures |CStr(d)| <= |d| && CStr(d) == d[..|CStr(d)|] && 0 !in CStr(d)
    ensures |CStr(d)| < |d| ==> d[|CStr(d)|] == 0
  {
    if d != [] && d[0] != 0 {
      CStrStart(d[1..]);
    }
  }

  /** Something is to be found in the value d of a property, or the property is not there. */
  predicate HasValue(d: Option<Str>, n: nat, v: nat)
    requires n > 0
  {
    d.Some? && d.value != [] && |d.value| % n == 0 && v in Values(d.value, n)
  }

  /** One of the strings in proc-name begins with w. */
  ghost predicate NameFound(d: Option<Str>, w: Str) {
    d.Some? && d.value != []
    && (w == [] || SomeString(d.value[..|d.value| - 1] + [0], w))
  }

  /** What the properties of an entry say of its kind. */
  predicate KindIs(p: Pos, kind: Kind, plat: Plat, input: Input)
    requires p.f.SubF?
  {
    match kind
    case BaseDtb => Read(p, IS_OVERLAY).None? && plat == NO_PLAT
    case SocDtbo => Read(p, IS_OVERLAY) == Some([]) && Read(p, BOARD_INFO).None? && plat == NO_PLAT
    case PlatDtbo =>
      && Read(p, IS_OVERLAY) == Some([]) && Read(p, BOARD_INFO).Some? && |Read(p, BOARD_INFO).value| % 4 == 0
      && FirstPlat(Read(p, BOARD_INFO).value, input.plat.ptype) == Some(plat)
  }

  /**
   * An entry is a candidate exactly if it has chip-info for the family, says what kind of tree it is, and has the name
   * and all the values that are asked for.
   */
  lemma CandidateIs(p: Pos, input: Input, c: Card)
    requires p.f.SubF?
    ensures CardOf(p, input) == Ok(Some(c)) <==>
              && Read(p, CHIP_INFO).Some? && |Read(p, CHIP_INFO).value| % 8 == 0
              && FirstChip(Read(p, CHIP_INFO).value, input.chip.family) == Some(c.chip)
              && KindIs(p, c.kind, c.plat, input)
              && (NameFor(c.kind, input).Some? ==> NameFound(Read(p, PROC_NAME), NameFor(c.kind, input).value))
              && forall w | w in input.wants ::
                   w.size in {1, 2, 4, 8} && HasValue(Read(p, w.name), w.size, w.value)
    ensures CardOf(p, input).Err? <==>
              ChipOf(p, input).Some? && Read(p, IS_OVERLAY).Some? && Read(p, IS_OVERLAY).value != []
  {
    hide FirstChip, FirstPlat, StartsSome, HasNumber, Values, SomeString;
    var d := Read(p, PROC_NAME);
    if NameFor(c.kind, input).Some? && d.Some? && d.value != [] {
      StartsSomeIs(d.value[..|d.value| - 1] + [0], NameFor(c.kind, input).value);
    }
    forall w | w in input.wants
      ensures WantFits(p, w) <==> w.size in {1, 2, 4, 8} && HasValue(Read(p, w.name), w.size, w.value)
    {
      if Read(p, w.name).Some? && w.size in {1, 2, 4, 8} {
        HasNumberIs(Read(p, w.name).value, w.size, w.value);
      }
    }
  }

  /** An entry is for the OEM variant exactly if it names none or one of those it names is the device's. */
  lemma OemIs(p: Pos, input: Input)
    requires p.f.SubF?
    ensures OemFits(p, input) <==> Read(p, OEM_VAR).None? || HasValue(Read(p, OEM_VAR), 4, input.oem)
  {
    hide HasNumber, Values;
    if Read(p, OEM_VAR).Some? {
      HasNumberIs(Read(p, OEM_VAR).value, 4, input.oem);
    }
  }

  // ----- The same, step by step -----

  method FindChip(d: Str, family: nat) returns (r: Option<Chip>)
    ensures r == FirstChip(d, family)
  {
    var i := 0;
    assert d[0..] == d;
    while i + 8 <= |d|
      invariant i <= |d| && FirstChip(d, family) == FirstChip(d[i..], family)
    {
      if ChipAt(d[i..]).family == family {
        return Some(ChipAt(d[i..]));
      }
      assert d[i..][8..] == d[i + 8..];
      i := i + 8;
    }
    return None;
  }

  method FindPlat(d: Str, ptype: nat) returns (r: Option<Plat>)
    ensures r == FirstPlat(d, ptype)
  {
    var i := 0;
    assert d[0..] == d;
    while i + 4 <= |d|
      invariant i <= |d| && FirstPlat(d, ptype) == FirstPlat(d[i..], ptype)
    {
      if PlatAt(d[i..]).ptype == ptype {
        return Some(PlatAt(d[i..]));
      }
      assert d[i..][4..] == d[i + 4..];
      i := i + 4;
    }
    return None;
  }

  method FindNumber(d: Str, n: nat, v: nat) returns (r: bool)
    requires n > 0
    ensures r == HasNumber(d, n, v)
  {
    var i := 0;
    assert d[0..] == d;
    while i + n <= |d|
      invariant i <= |d| && HasNumber(d, n, v) == HasNumber(d[i..], n, v)
    {
      if Number(d[i..][..n]) == v {
        return true;
      }
      assert d[i..][n..] == d[i + n..];
      i := i + n;
    }
    return false;
  }

  lemma {:induction false} CStrBound(d: Str)
    ensures |CStr(d)| <= |d| && (d != [] && d[|d| - 1] == 0 ==> |CStr(d)| < |d|)
  {
    if d != [] && d[0] != 0 {
      CStrBound(d[1..]);
    }
  }

  method FindStart(d: Str, w: Str) returns (r: bool)
    requires d != [] && d[|d| - 1] == 0
    ensures r == StartsSome(d, w)
  {
    var i := 0;
    assert d[0..] == d;
    while i < |d|
      invariant i <= |d| && StartsSome(d, w) == StartsSome(d[i..], w)
    {
      var s := ReadCStr(d[i..]);
      if w <= s {
        return true;
      }
      CStrBound(d[i..]);
      assert d[i..][|s| + 1..] == d[i + |s| + 1..];
      i := i + |s| + 1;
    }
    return false;
  }

  method GetChip(v: Fdt, off: int, input: Input, ghost p: Pos) returns (r: Option<Chip>)
    requires At(v, p, off) && p.f.SubF?
    ensures r == ChipOf(p, input)
  {
    var d := ReadProp(v, off, CHIP_INFO, p);
    if d.None? || |d.value| % 8 != 0 {
      return None;
    }
    r := FindChip(d.value, input.chip.family);
  }

  method GetKind(v: Fdt, off: int, input: Input, ghost p: Pos) returns (r: Res<Option<(Kind, Plat)>>)
    requires At(v, p, off) && p.f.SubF?
    ensures r == KindOf(p, input)
  {
    var flag := ReadProp(v, off, IS_OVERLAY, p);
    if flag.None? {
      return Ok(Some((BaseDtb, NO_PLAT)));
    }
    if flag.value != [] {
      return Err(BY_ZERO);
    }
    var d := ReadProp(v, off, BOARD_INFO, p);
    if d.None? {
      return Ok(Some((SocDtbo, NO_PLAT)));
    }
    if |d.value| % 4 != 0 {
      return Ok(None);
    }
    var t := FindPlat(d.value, input.plat.ptype);
    return Ok(if t.Some? then Some((PlatDtbo, t.value)) else None);
  }

  method CheckName(v: Fdt, off: int, kind: Kind, input: Input, ghost p: Pos) returns (r: bool)
    requires At(v, p, off) && p.f.SubF?
    ensures r == NameFits(p, kind, input)
  {
    var w := NameFor(kind, input);
    if w.None? {
      return true;
    }
    var d := ReadProp(v, off, PROC_NAME, p);
    if d.None? || d.value == [] {
      return false;
    }
    if w.value == [] {
      return true;
    }
    r := FindStart(d.value[..|d.value| - 1] + [0], w.value);
  }

  method CheckWants(v: Fdt, off: int, wants: seq<Want>, ghost p: Pos) returns (r: bool)
    requires At(v, p, off) && p.f.SubF?
    ensures r == WantsFit(p, wants)
  {
    for i := 0 to |wants|
      invariant forall w | w in wants[..i] :: WantFits(p, w)
    {
      var w := wants[i];
      assert w in wants && wants[..i + 1] == wants[..i] + [w];
      var d := ReadProp(v, off, w.name, p);
      if d.None? || w.size !in {1, 2, 4, 8} || d.value == [] || |d.value| % w.size != 0 {
        return false;
      }
      var found := FindNumber(d.value, w.size, w.value);
      if !found {
        return false;
      }
    }
    assert wants[..|wants|] == wants;
    return true;
  }

  method CheckOem(v: Fdt, off: int, input: Input, ghost p: Pos) returns (r: bool)
    requires At(v, p, off) && p.f.SubF?
    ensures r == OemFits(p, input)
  {
    var d := ReadProp(v, off, OEM_VAR, p);
    if d.None? {
      return true;
    }
    if d.value == [] || |d.value| % 4 != 0 {
      return false;
    }
    r := FindNumber(d.value, 4, input.oem);
  }

  method Candidate(v: Fdt, off: int, input: Input, ghost p: Pos) returns (r: Res<Option<Card>>)
    requires At(v, p, off) && p.f.SubF?
    ensures r == CardOf(p, input)
  {
    var c := GetChip(v, off, input, p);
    if c.None? {
      return Ok(None);
    }
    var k := GetKind(v, off, input, p);
    if k.Err? {
      return Err(k.code);
    }
    if k.v.None? {
      return Ok(None);
    }
    var named := CheckName(v, off, k.v.value.0, input, p);
    if !named {
      return Ok(None);
    }
    var fits := CheckWants(v, off, input.wants, p);
    if !fits {
      return Ok(None);
    }
    return Ok(Some(Card(k.v.value.0, c.value, k.v.value.1)));
  }

  // ----- The order among candidates -----

  /** CALCULATE_CHIP_PLAT_INFO_VERSION, for parts of 16 and of 8 bits. */
  function Packed(major: nat, minor: nat, radix: nat): nat {
    major * radix + minor
  }

  /** What candidates are compared by: the rank, then the versions. */
  datatype Score = Score(rank: nat, plat: nat, chip: nat)

  predicate Less(a: Score, b: Score) {
    a.rank < b.rank || (a.rank == b.rank && (a.plat < b.plat || (a.plat == b.plat && a.chip < b.chip)))
  }

  function ChipVersion(c: Chip): nat {
    Packed(c.major, c.minor, 0x1_0000)
  }

  function PlatVersion(t: Plat): nat {
    Packed(t.major, t.minor, 0x100)
  }

  /** A masked value fits any device; else it has to be the device's. */
  predicate Masked(v: nat, device: nat) {
    v == 0 || v == device
  }

  predicate IsBase(c: Card) {
    c.kind.BaseDtb? && c.chip.id == 0 && c.chip.major == 1 && c.chip.minor == 0
  }

  /** The score of a chip overlay that the device can use. */
  function SocScore(c: Card, input: Input): Option<Score> {
    if c.kind.SocDtbo? && Masked(c.chip.id, input.chip.id) && ChipVersion(c.chip) <= ChipVersion(input.chip)
    then Some(Score(if c.chip.id != 0 then 1 else 0, 0, ChipVersion(c.chip))) else None
  }

  /** The score of a board overlay that the device can use. */
  function PlatScore(c: Card, oem: bool, input: Input): Option<Score> {
    if c.kind.PlatDtbo? && c.plat.ptype == input.plat.ptype && oem && Masked(c.plat.sub, input.plat.sub)
      && Masked(c.chip.id, input.chip.id)
       && PlatVersion(c.plat) <= PlatVersion(input.plat) && ChipVersion(c.chip) <= ChipVersion(input.chip)
    then Some(Score((if c.plat.sub != 0 then 2 else 0) + (if c.chip.id != 0 then 1 else 0), PlatVersion(c.plat),
      ChipVersion(c.chip))) else None
  }

  /** Packed versions are in the order of their major and then their minor parts. */
  lemma PackedOrder(major: nat, minor: nat, major': nat, minor': nat, radix: nat)
    requires minor < radix && minor' < radix
    ensures Packed(major, minor, radix) < Packed(major', minor', radix) <==>
            major < major' || (major == major' && minor < minor')
  {
    if major < major' {
      assert (major + 1) * radix <= major' * radix;
    } else if major' < major {
      assert (major' + 1) * radix <= major * radix;
    }
  }

  predicate VersionLess(major: nat, minor: nat, major': nat, minor': nat) {
    major < major' || (major == major' && minor < minor')
  }

  /** The parts of the versions of a candidate fit their fields. */
  predicate PartsFit(c: Card) {
    c.chip.minor < 0x1_0000 && c.plat.minor < 0x100
  }

  /** So do those of the device. */
  predicate DeviceFits(input: Input) {
    input.chip.minor < 0x1_0000 && input.plat.minor < 0x100
  }

  // ----- The order, in terms of the cards -----

  /** u is below v at the first place where they differ. */
  predicate LexLess(u: seq<nat>, v: seq<nat>)
    requires |u| == |v|
  {
    u != [] && (u[0] < v[0] || (u[0] == v[0] && LexLess(u[1..], v[1..])))
  }

  /** Whether a value is given, that is not masked. */
  function Given(v: nat): nat {
    if v != 0 then 1 else 0
  }

  /** What chip overlays are compared by: whether the chip is named, then the chip's version. */
  function SocKey(c: Card): (k: seq<nat>)
    ensures |k| == 3
  {
    [Given(c.chip.id), c.chip.major, c.chip.minor]
  }

  /** And board overlays: whether the subtype is named, whether the chip is, then the board's and the chip's version. */
  function PlatKey(c: Card): (k: seq<nat>)
    ensures |k| == 6
  {
    [Given(c.plat.sub), Given(c.chip.id), c.plat.major, c.plat.minor, c.chip.major, c.chip.minor]
  }

  /** A chip overlay for the device: it names the device's chip or none, and no later version. */
  predicate SocEligible(c: Card, input: Input) {
    && c.kind.SocDtbo? && c.chip.id in {0, input.chip.id}
    && !VersionLess(input.chip.major, input.chip.minor, c.chip.major, c.chip.minor)
  }

  /**
   * A board overlay for the device: it is for its type, for its OEM variant if oem says so, names its subtype or none
   * and its chip or none, and no later version of either.
   */
  predicate PlatEligible(c: Card, oem: bool, input: Input) {
    && c.kind.PlatDtbo? && oem && c.plat.ptype == input.plat.ptype
    && c.plat.sub in {0, input.plat.sub} && c.chip.id in {0, input.chip.id}
    && !VersionLess(input.plat.major, input.plat.minor, c.plat.major, c.plat.minor)
    && !VersionLess(input.chip.major, input.chip.minor, c.chip.major, c.chip.minor)
  }

  /** An overlay has a score exactly if it is for the device. */
  lemma ScoreEligible(c: Card, oem: bool, input: Input)
    requires PartsFit(c) && DeviceFits(input)
    ensures SocScore(c, input).Some? <==> SocEligible(c, input)
    ensures PlatScore(c, oem, input).Some? <==> PlatEligible(c, oem, input)
  {
    hide Packed;
    PackedOrder(input.chip.major, input.chip.minor, c.chip.major, c.chip.minor, 0x1_0000);
    PackedOrder(input.plat.major, input.plat.minor, c.plat.major, c.plat.minor, 0x100);
  }

  /**
   * Of two chip overlays for the device the one that names the chip comes above the one that does not, and else the
   * one with the later version; of two board overlays the one that names the subtype, then the one that names the
   * chip, then the one with the later board version, then the one with the later chip version.
   */
  lemma ScoreOrder(c: Card, d: Card, oem: bool, oem': bool, input: Input)
    requires PartsFit(c) && PartsFit(d) && DeviceFits(input)
    ensures SocEligible(c, input) && SocEligible(d, input) ==>
              && SocScore(c, input).Some? && SocScore(d, input).Some?
              && (Less(SocScore(c, input).value, SocScore(d, input).value) <==> LexLess(SocKey(c), SocKey(d)))
    ensures PlatEligible(c, oem, input) && PlatEligible(d, oem', input) ==>
              && PlatScore(c, oem, input).Some? && PlatScore(d, oem', input).Some?
              && (Less(PlatScore(c, oem, input).value, PlatScore(d, oem', input).value) <==>
                  LexLess(PlatKey(c), PlatKey(d)))
  {
    hide Packed, LexLess;
    ScoreEligible(c, oem, input);
    ScoreEligible(d, oem', input);
    PackedOrder(c.chip.major, c.chip.minor, d.chip.major, d.chip.minor, 0x1_0000);
    PackedOrder(d.chip.major, d.chip.minor, c.chip.major, c.chip.minor, 0x1_0000);
    PackedOrder(c.plat.major, c.plat.minor, d.plat.major, d.plat.minor, 0x100);
    PackedOrder(d.plat.major, d.plat.minor, c.plat.major, c.plat.minor, 0x100);
    Lex3(SocKey(c), SocKey(d));
    assert SocKey(c)[0..] == SocKey(c) && SocKey(d)[0..] == SocKey(d);
    Lex6(PlatKey(c), PlatKey(d));
  }

  lemma LexTail(u: seq<nat>, v: seq<nat>, i: nat)
    requires |u| == |v| && i < |u|
    ensures LexLess(u[i..], v[i..]) <==> u[i] < v[i] || (u[i] == v[i] && LexLess(u[i + 1..], v[i + 1..]))
    ensures !LexLess(u[|u|..], v[|v|..])
  {
    assert u[i..][1..] == u[i + 1..] && v[i..][1..] == v[i + 1..];
  }

  lemma Lex3(u: seq<nat>, v: seq<nat>)
    requires |u| == |v| >= 3
    ensures var i := |u| - 3; LexLess(u[i..], v[i..]) <==>
              u[i] < v[i] || (u[i] == v[i] && (u[i + 1] < v[i + 1] || (u[i + 1] == v[i + 1] && u[i + 2] < v[i + 2])))
  {
    hide LexLess;
    LexTail(u, v, |u| - 3);
    LexTail(u, v, |u| - 2);
    LexTail(u, v, |u| - 1);
  }

  lemma Lex6(u: seq<nat>, v: seq<nat>)
    requires |u| == |v| == 6
    ensures LexLess(u, v) <==>
            u[0] < v[0] || (u[0] == v[0] && (u[1] < v[1] || (u[1] == v[1] && (u[2] < v[2] || (u[2] == v[2]
            && (u[3] < v[3] || (u[3] == v[3] && (u[4] < v[4] || (u[4] == v[4] && u[5] < v[5])))))))))
  {
    hide LexLess;
    Lex3(u, v);
    LexTail(u, v, 2);
    LexTail(u, v, 1);
    LexTail(u, v, 0);
    assert u[0..] == u && v[0..] == v;
  }

  /** What has been read fits. */
  lemma CardFits(p: Pos, input: Input)
    requires p.f.SubF?
    ensures CardOf(p, input).Ok? && CardOf(p, input).v.Some? ==> PartsFit(CardOf(p, input).v.value)
  {
    hide FirstChip, FirstPlat;
    if CardOf(p, input).Ok? && CardOf(p, input).v.Some? {
      FirstChipBound(Read(p, CHIP_INFO).value, input.chip.family);
      if Read(p, BOARD_INFO).Some? {
        FirstPlatBound(Read(p, BOARD_INFO).value, input.plat.ptype);
      }
    }
  }

  lemma {:induction false} FirstPlatBound(d: Str, ptype: nat)
    ensures FirstPlat(d, ptype).Some? ==> FirstPlat(d, ptype).value.minor < 0x100
    decreases |d|
  {
    if |d| >= 4 {
      FirstPlatBound(d[4..], ptype);
    }
  }

  lemma {:induction false} NumberBound(d: Str)
    ensures |d| == 1 ==> Number(d) < 0x100
    ensures |d| == 2 ==> Number(d) < 0x1_0000
  {
    if |d| == 2 {
      assert Number(d[..1]) == d[0] as int by {
        assert d[..1][..0] == [];
      }
    }
  }

  lemma {:induction false} FirstChipBound(d: Str, family: nat)
    ensures FirstChip(d, family).Some? ==> FirstChip(d, family).value.minor < 0x1_0000
    decreases |d|
  {
    if |d| >= 8 {
      NumberBound(d[6..8]);
      FirstChipBound(d[8..], family);
    }
  }

  // ----- What is chosen -----

  /** r is the first of the entries that have a key whose key no other is above. */
  ghost predicate IsTop(keys: seq<Option<seq<nat>>>, n: nat, r: Option<nat>)
    requires forall j | 0 <= j < |keys| && keys[j].Some? :: |keys[j].value| == n
  {
    match r
    case None => forall j | 0 <= j < |keys| :: keys[j].None?
    case Some(i) =>
      && i < |keys| && keys[i].Some?
      && (forall j | 0 <= j < |keys| && keys[j].Some? :: !LexLess(keys[i].value, keys[j].value))
      && (forall j | 0 <= j < i && keys[j].Some? :: LexLess(keys[j].value, keys[i].value))
  }

  // ----- The image -----

  /** r is the first entry for which the score is greatest. */
  ghost predicate IsBest(scores: seq<Option<Score>>, r: Option<nat>) {
    match r
    case None => forall j | 0 <= j < |scores| :: scores[j].None?
    case Some(i) =>
      && i < |scores| && scores[i].Some?
      && (forall j | 0 <= j < |scores| && scores[j].Some? :: !Less(scores[i].value, scores[j].value))
      && (forall j | 0 <= j < i && scores[j].Some? :: Less(scores[j].value, scores[i].value))
  }

  /** One more score: the best is what it was unless the new one is better. */
  lemma BestMore(scores: seq<Option<Score>>, r: Option<nat>, k: Option<Score>)
    requires IsBest(scores, r)
    ensures IsBest(scores + [k], if k.Some? && (r.None? || Less(scores[r.value].value, k.value)) then Some(|scores|)
            else r)
  {
    if r.Some? {
      assert scores[r.value].Some?;
    }
  }

  function Joined(blobs: seq<Str>): Str {
    if blobs == [] then [] else Joined(blobs[..|blobs| - 1]) + blobs[|blobs| - 1]
  }

  /** The node /board-id/ of the tree f. */
  function Board(f: Forest): Res<Pos>
    requires IsRoot(f)
    ensures Board(f).Ok? ==> Board(f).v.f.SubF? && Whole(Board(f).v) == f
  {
    PathTo(f, BOARD_ID)
  }

  /**
   * The image holds the blobs, which encode the trees fs, one after the other; sized says whether its size is known.
   */
  ghost predicate ImageHolds(image: Str, sized: bool, blobs: seq<Str>, fs: seq<Forest>) {
    && |blobs| == |fs| && Joined(blobs) <= image
    && (forall i | 0 <= i < |fs| :: Framed(blobs[i]) && TotalSize(blobs[i]) == |blobs[i]|
                                    && Encodes(View(blobs[i]), fs[i]) && IsRoot(fs[i]))
    && (if sized then image == Joined(blobs)
       else |image| >= |Joined(blobs)| + V17_SIZE && Get32(image, |Joined(blobs)|) != MAGIC)
  }

  function CardIn(f: Forest, input: Input): Option<Card>
    requires IsRoot(f)
  {
    if Board(f).Ok? && CardOf(Board(f).v, input).Ok? then CardOf(Board(f).v, input).v else None
  }

  function BaseScore(f: Forest, input: Input): Option<Score>
    requires IsRoot(f)
  {
    match CardIn(f, input)
    case None => None
    case Some(c) => if IsBase(c) then Some(Score(0, 0, 0)) else None
  }

  function SocScoreIn(f: Forest, input: Input): Option<Score>
    requires IsRoot(f)
  {
    match CardIn(f, input)
    case None => None
    case Some(c) => SocScore(c, input)
  }

  function PlatScoreIn(f: Forest, input: Input): Option<Score>
    requires IsRoot(f)
  {
    match CardIn(f, input)
    case None => None
    case Some(c) => PlatScore(c, OemFits(Board(f).v, input), input)
  }

  /** What an entry is compared by as a base tree, a chip overlay or a board overlay for the device, if it is one. */
  function BaseKeyIn(f: Forest, input: Input): Option<seq<nat>>
    requires IsRoot(f)
  {
    match CardIn(f, input)
    case None => None
    case Some(c) => if IsBase(c) then Some([]) else None
  }

  function SocKeyIn(f: Forest, input: Input): Option<seq<nat>>
    requires IsRoot(f)
  {
    match CardIn(f, input)
    case None => None
    case Some(c) => if SocEligible(c, input) then Some(SocKey(c)) else None
  }

  function PlatKeyIn(f: Forest, input: Input): Option<seq<nat>>
    requires IsRoot(f)
  {
    match CardIn(f, input)
    case None => None
    case Some(c) => if PlatEligible(c, OemFits(Board(f).v, input), input) then Some(PlatKey(c)) else None
  }

  ghost predicate AllRoots(fs: seq<Forest>) {
    forall i | 0 <= i < |fs| :: IsRoot(fs[i])
  }

  ghost function BaseScores(fs: seq<Forest>, input: Input): seq<Option<Score>>
    requires AllRoots(fs)
  {
    seq(|fs|, i requires 0 <= i < |fs| => BaseScore(fs[i], input))
  }

  ghost function SocScores(fs: seq<Forest>, input: Input): seq<Option<Score>>
    requires AllRoots(fs)
  {
    seq(|fs|, i requires 0 <= i < |fs| => SocScoreIn(fs[i], input))
  }

  ghost function PlatScores(fs: seq<Forest>, input: Input): seq<Option<Score>>
    requires AllRoots(fs)
  {
    seq(|fs|, i requires 0 <= i < |fs| => PlatScoreIn(fs[i], input))
  }

  ghost function BaseKeys(fs: seq<Forest>, input: Input): (ks: seq<Option<seq<nat>>>)
    requires AllRoots(fs)
    ensures |ks| == |fs| && forall j | 0 <= j < |ks| && ks[j].Some? :: |ks[j].value| == 0
  {
    seq(|fs|, i requires 0 <= i < |fs| => BaseKeyIn(fs[i], input))
  }

  ghost function SocKeys(fs: seq<Forest>, input: Input): (ks: seq<Option<seq<nat>>>)
    requires AllRoots(fs)
    ensures |ks| == |fs| && forall j | 0 <= j < |ks| && ks[j].Some? :: |ks[j].value| == 3
  {
    seq(|fs|, i requires 0 <= i < |fs| => SocKeyIn(fs[i], input))
  }

  ghost function PlatKeys(fs: seq<Forest>, input: Input): (ks: seq<Option<seq<nat>>>)
    requires AllRoots(fs)
    ensures |ks| == |fs| && forall j | 0 <= j < |ks| && ks[j].Some? :: |ks[j].value| == 6
  {
    seq(|fs|, i requires 0 <= i < |fs| => PlatKeyIn(fs[i], input))
  }

  /** Two entries are compared by their scores as by their keys. */
  ghost predicate Agrees(s: Option<Score>, k: Option<seq<nat>>, s': Option<Score>, k': Option<seq<nat>>, n: nat) {
    && s.Some? == k.Some? && s'.Some? == k'.Some? && (k.Some? ==> |k.value| == n) && (k'.Some? ==> |k'.value| == n)
    && (k.Some? && k'.Some? ==> (Less(s.value, s'.value) <==> LexLess(k.value, k'.value)))
  }

  lemma KeysAgree(f: Forest, g: Forest, input: Input)
    requires IsRoot(f) && IsRoot(g) && DeviceFits(input)
    ensures Agrees(BaseScore(f, input), BaseKeyIn(f, input), BaseScore(g, input), BaseKeyIn(g, input), 0)
    ensures Agrees(SocScoreIn(f, input), SocKeyIn(f, input), SocScoreIn(g, input), SocKeyIn(g, input), 3)
    ensures Agrees(PlatScoreIn(f, input), PlatKeyIn(f, input), PlatScoreIn(g, input), PlatKeyIn(g, input), 6)
  {
    hide CardOf, Board, SocScore, PlatScore, SocEligible, PlatEligible, SocKey, PlatKey, LexLess, OemFits, IsBase,
      PartsFit, Less;
    NoneBelow();
    if CardIn(f, input).Some? {
      CardFits(Board(f).v, input);
      ScoreEligible(CardIn(f, input).value, OemFits(Board(f).v, input), input);
    }
    if CardIn(g, input).Some? {
      CardFits(Board(g).v, input);
      ScoreEligible(CardIn(g, input).value, OemFits(Board(g).v, input), input);
    }
    if CardIn(f, input).Some? && CardIn(g, input).Some? {
      ScoreOrder(CardIn(f, input).value, CardIn(g, input).value, OemFits(Board(f).v, input),
        OemFits(Board(g).v, input), input);
    }
  }

  lemma NoneBelow()
    ensures !Less(Score(0, 0, 0), Score(0, 0, 0)) && !LexLess([], [])
  {
  }

  /** Scores and keys say the same. */
  ghost predicate Parallel(scores: seq<Option<Score>>, keys: seq<Option<seq<nat>>>, n: nat) {
    |scores| == |keys| && forall j, k | 0 <= j < |keys| && 0 <= k < |keys| ::
      Agrees(scores[j], keys[j], scores[k], keys[k], n)
  }

  /** The pick is the first entry whose key no other is above. */
  ghost predicate PicksTop(blobs: seq<Str>, keys: seq<Option<seq<nat>>>, n: nat, r: Option<Pick>)
    requires |keys| == |blobs| && forall j | 0 <= j < |keys| && keys[j].Some? :: |keys[j].value| == n
  {
    exists i :: IsTop(keys, n, i) && r == PickOf(blobs, i)
  }

  lemma BestIsTop(blobs: seq<Str>, scores: seq<Option<Score>>, keys: seq<Option<seq<nat>>>, n: nat, r: Option<Pick>)
    requires |scores| == |blobs| && Parallel(scores, keys, n) && PicksBest(blobs, scores, r)
    requires forall j | 0 <= j < |keys| && keys[j].Some? :: |keys[j].value| == n
    ensures PicksTop(blobs, keys, n, r)
  {
    hide Less, LexLess, Joined;
    var i: Option<nat> :| IsBest(scores, i) && r == PickOf(blobs, i);
    assert forall j | 0 <= j < |keys| :: Agrees(scores[j], keys[j], scores[j], keys[j], n);
    if i.Some? {
      assert forall j | 0 <= j < |keys| :: Agrees(scores[i.value], keys[i.value], scores[j], keys[j], n);
      assert forall j | 0 <= j < |keys| :: Agrees(scores[j], keys[j], scores[i.value], keys[i.value], n);
    }
    assert IsTop(keys, n, i);
  }

  lemma AllParallel(fs: seq<Forest>, input: Input)
    requires AllRoots(fs) && DeviceFits(input)
    ensures Parallel(BaseScores(fs, input), BaseKeys(fs, input), 0)
    ensures Parallel(SocScores(fs, input), SocKeys(fs, input), 3)
    ensures Parallel(PlatScores(fs, input), PlatKeys(fs, input), 6)
  {
    hide BaseScore, SocScoreIn, PlatScoreIn, BaseKeyIn, SocKeyIn, PlatKeyIn, Less, IsRoot, Agrees;
    var (b, s, t) := (BaseScores(fs, input), SocScores(fs, input), PlatScores(fs, input));
    var (b', s', t') := (BaseKeys(fs, input), SocKeys(fs, input), PlatKeys(fs, input));
    forall j, k | 0 <= j < |fs| && 0 <= k < |fs|
      ensures Agrees(b[j], b'[j], b[k], b'[k], 0) && Agrees(s[j], s'[j], s[k], s'[k], 3)
      ensures Agrees(t[j], t'[j], t[k], t'[k], 6)
    {
      KeysAgree(fs[j], fs[k], input);
    }
  }

  // ----- The walk -----

  const INVALID_BLOB_ENTRY := -5

  lemma HeaderSame(b: Str, c: Str)
    requires |b| >= V17_SIZE && |c| >= V17_SIZE && b[..V17_SIZE] == c[..V17_SIZE]
    ensures HeaderError(b) == HeaderError(c) && TotalSize(b) == TotalSize(c)
  {
    assert forall i | 0 <= i <= 36 :: Get32(b, i) == Get32(c, i) by {
      forall i: nat | i <= 36
        ensures Get32(b, i) == Get32(c, i)
      {
        assert forall k | i <= k < i + 4 :: b[k] == b[..V17_SIZE][k] && c[k] == c[..V17_SIZE][k];
      }
    }
  }

  lemma {:induction false} JoinedPrefix(blobs: seq<Str>, i: nat)
    requires i <= |blobs|
    ensures Joined(blobs[..i]) <= Joined(blobs)
    decreases |blobs|
  {
    if i == |blobs| {
      assert blobs[..i] == blobs;
    } else {
      assert blobs[..|blobs| - 1][..i] == blobs[..i];
      JoinedPrefix(blobs[..|blobs| - 1], i);
    }
  }

  lemma JoinedNext(blobs: seq<Str>, i: nat)
    requires i < |blobs|
    ensures Joined(blobs[..i + 1]) == Joined(blobs[..i]) + blobs[i]
  {
    assert blobs[..i + 1][..i] == blobs[..i] && blobs[..i + 1][i] == blobs[i];
  }

  lemma SliceAt(image: Str, a: Str, b: Str)
    requires a + b <= image && |b| >= V17_SIZE
    ensures |a| + |b| <= |image| && image[|a|..|a| + |b|] == b && image[|a|..][..V17_SIZE] == b[..V17_SIZE]
  {
    assert image[..|a| + |b|] == a + b;
    assert image[|a|..|a| + |b|] == (a + b)[|a|..] == b;
    assert image[|a|..][..V17_SIZE] == image[|a|..|a| + |b|][..V17_SIZE];
  }

  lemma PrefixTrans(a: Str, b: Str, c: Str)
    requires a <= b <= c
    ensures a <= c
  {
  }

  /** Where the entry i of the image is, and what its header says. */
  lemma EntryAt(image: Str, sized: bool, blobs: seq<Str>, fs: seq<Forest>, i: nat)
    requires ImageHolds(image, sized, blobs, fs) && i < |blobs|
    ensures var at := |Joined(blobs[..i])|;
            && at + |blobs[i]| <= |image| && image[at..at + |blobs[i]|] == blobs[i] && |blobs[i]| >= V17_SIZE
            && HeaderError(image[at..]) == 0 && TotalSize(image[at..]) == |blobs[i]|
            && |Joined(blobs[..i + 1])| == at + |blobs[i]|
  {
    hide Joined, HeaderError, TotalSize, View, Encodes, IsRoot;
    JoinedNext(blobs, i);
    JoinedPrefix(blobs, i + 1);
    assert Framed(blobs[i]);
    PrefixTrans(Joined(blobs[..i + 1]), Joined(blobs), image);
    SliceAt(image, Joined(blobs[..i]), blobs[i]);
    HeaderSame(image[|Joined(blobs[..i])|..], blobs[i]);
  }

  /** Behind the last entry the image ends, or there is no header. */
  lemma ImageEnd(image: Str, sized: bool, blobs: seq<Str>, fs: seq<Forest>)
    requires ImageHolds(image, sized, blobs, fs)
    ensures var at := |Joined(blobs)|;
            at <= |image| && (sized ==> at == |image|)
              && (!sized ==> at + V17_SIZE <= |image| && HeaderError(image[at..]) == -BADMAGIC)
  {
    hide Joined, View, Encodes, IsRoot, Framed;
    var at := |Joined(blobs)|;
    if !sized {
      assert image[at..][0..4] == image[at..at + 4];
      assert Get32(image[at..], 0) == Get32(image, at);
    }
  }

  // ----- What can go wrong -----

  /** The address of the entry i of an image that begins at the address start, or of what is behind the last entry. */
  function EntryAddr(start: nat, blobs: seq<Str>, i: nat): nat
    requires i <= |blobs|
  {
    start + |Joined(blobs[..i])|
  }

  /** The headers that are looked at: one for each entry, and if the size is unknown what is behind them. */
  function Looked(sized: bool, blobs: seq<Str>): nat {
    if sized then |blobs| else |blobs| + 1
  }

  /** What goes wrong with an entry of the tree f once its header has been accepted, or 0. */
  function EntryError(f: Forest, input: Input): int
    requires IsRoot(f)
  {
    if Board(f).Err? then GET_ROOT_NODE_FAILED else
      match CardOf(Board(f).v, input)
      case Err(code) => code
      case Ok(_) => 0
  }

  /** What goes wrong in the turn i of the walk, or 0. */
  ghost function TurnError(start: nat, sized: bool, blobs: seq<Str>, fs: seq<Forest>, input: Input, i: nat): int
    requires i <= |blobs| == |fs| && AllRoots(fs)
  {
    if i < Looked(sized, blobs) && EntryAddr(start, blobs, i) % 8 != 0 then -ALIGNMENT
    else if i < |blobs| then EntryError(fs[i], input)
    else 0
  }

  /** The walk fails exactly if something goes wrong in some turn, and then with what went wrong first. */
  ghost predicate FailsFirst(start: nat, sized: bool, blobs: seq<Str>, fs: seq<Forest>, input: Input, err: int)
    requires |blobs| == |fs| && AllRoots(fs)
  {
    if err == 0 then forall i | 0 <= i <= |blobs| :: TurnError(start, sized, blobs, fs, input, i) == 0 else
      exists i :: && 0 <= i <= |blobs| && TurnError(start, sized, blobs, fs, input, i) == err
                  && forall j | 0 <= j < i :: TurnError(start, sized, blobs, fs, input, j) == 0
  }

  /** The sizes of the entries in front of the last header that is looked at are multiples of 8, and so is the start. */
  ghost predicate SizesAligned(start: nat, sized: bool, blobs: seq<Str>) {
    Looked(sized, blobs) > 0 ==> start % 8 == 0 && forall i | 0 <= i < Looked(sized, blobs) - 1 :: |blobs[i]| % 8 == 0
  }

  lemma {:induction false} AddrAligned(start: nat, blobs: seq<Str>, i: nat)
    requires i <= |blobs|
    ensures (forall j: nat | j <= i :: EntryAddr(start, blobs, j) % 8 == 0) <==>
            start % 8 == 0 && forall j | 0 <= j < i :: |blobs[j]| % 8 == 0
  {
    hide Joined;
    if i == 0 {
      EmptyJoined(blobs);
    } else {
      AddrAligned(start, blobs, i - 1);
      JoinedNext(blobs, i - 1);
      assert EntryAddr(start, blobs, i) == EntryAddr(start, blobs, i - 1) + |blobs[i - 1]|;
    }
  }

  lemma EmptyJoined(blobs: seq<Str>)
    ensures Joined(blobs[..0]) == []
  {
  }

  /**
   * The walk succeeds exactly if every entry has a node /board-id/, none that is for the family has an is-overlay
   * property that is not empty, and every header that is looked at is at a multiple of 8.
   */
  lemma WalksIff(start: nat, sized: bool, blobs: seq<Str>, fs: seq<Forest>, input: Input)
    requires |blobs| == |fs| && AllRoots(fs)
    ensures FailsFirst(start, sized, blobs, fs, input, 0) <==>
            SizesAligned(start, sized, blobs) && forall i | 0 <= i < |fs| ::
              Board(fs[i]).Ok? && CardOf(Board(fs[i]).v, input).Ok?
  {
    hide EntryAddr, CardOf, Board;
    var n := Looked(sized, blobs);
    if n > 0 {
      AddrAligned(start, blobs, n - 1);
    }
    if FailsFirst(start, sized, blobs, fs, input, 0) {
      forall j: nat | j < n
        ensures EntryAddr(start, blobs, j) % 8 == 0
      {
        assert TurnError(start, sized, blobs, fs, input, j) == 0;
      }
      forall i | 0 <= i < |fs|
        ensures Board(fs[i]).Ok? && CardOf(Board(fs[i]).v, input).Ok?
      {
        assert TurnError(start, sized, blobs, fs, input, i) == 0;
        CardCodes(fs[i], input);
      }
    } else {
      var i :| 0 <= i <= |blobs| && TurnError(start, sized, blobs, fs, input, i) != 0;
    }
  }

  lemma CardCodes(f: Forest, input: Input)
    requires IsRoot(f)
    ensures EntryError(f, input) == 0 <==> Board(f).Ok? && CardOf(Board(f).v, input).Ok?
  {
  }

  // ----- One turn -----

  /** _is_fdtheader_at_end_of_image: the size of the entry at the offset at, unless the image ends there. */
  method NextEntry(start: nat, image: Str, sized: bool, at: nat, ghost blobs: seq<Str>, ghost fs: seq<Forest>,
      ghost i: nat)
    returns (err: int, end: bool, size: nat)
    requires ImageHolds(image, sized, blobs, fs) && i <= |blobs| && at == |Joined(blobs[..i])|
    ensures err == if i < Looked(sized, blobs) && EntryAddr(start, blobs, i) % 8 != 0 then -ALIGNMENT else 0
    ensures err == 0 ==> end == (i == |blobs|)
    ensures err == 0 && !end ==> size == |blobs[i]| && at + size <= |image| && image[at..at + size] == blobs[i]
  {
    hide Joined, ImageHolds, HeaderError, TotalSize;
    if i < |blobs| {
      EntryAt(image, sized, blobs, fs, i);
    } else {
      assert blobs[..i] == blobs;
      ImageEnd(image, sized, blobs, fs);
    }
    err, end, size := 0, true, 0;
    if sized && at >= |image| {
      return;
    }
    var header := CheckHeader(start + at, image[at..]);
    if !sized && header == -BADMAGIC {
      return;
    }
    if header != 0 {
      err := header;
      return;
    }
    size := TotalSize(image[at..]);
    if size == 0 || (sized && at + size - 1 >= |image|) {
      err := INVALID_BLOB_ENTRY;
      return;
    }
    end := false;
  }

  method ReadView(b: Str) returns (v: Fdt)
    requires Framed(b)
    ensures v == View(b)
  {
    FramedBlocks(b);
    v := Fdt(Block(b, OffStruct(b), SizeStruct(b)), Block(b, OffStrings(b), SizeStrings(b)));
  }

  /** Where a selected entry begins in the image, and its size. */
  datatype Pick = Pick(at: nat, size: nat)

  function PickOf(blobs: seq<Str>, r: Option<nat>): Option<Pick>
    requires r.Some? ==> r.value < |blobs|
  {
    match r
    case None => None
    case Some(i) => Some(Pick(|Joined(blobs[..i])|, |blobs[i]|))
  }

  /** The pick is the first entry for which the score is greatest. */
  ghost predicate PicksBest(blobs: seq<Str>, scores: seq<Option<Score>>, r: Option<Pick>)
    requires |scores| == |blobs|
  {
    exists i :: IsBest(scores, i) && r == PickOf(blobs, i)
  }

  /** What is known of the best entry so far: rank -1 stands for none. */
  datatype Best = Best(rank: int, plat: nat, chip: nat, pick: Option<Pick>)

  const NONE_YET := Best(-1, 0, 0, None)

  ghost predicate Leads(blobs: seq<Str>, scores: seq<Option<Score>>, b: Best)
    requires |scores| <= |blobs|
  {
    exists i :: IsBest(scores, i) && b == BestOf(blobs, scores, i)
  }

  ghost function BestOf(blobs: seq<Str>, scores: seq<Option<Score>>, i: Option<nat>): Best
    requires |scores| <= |blobs| && IsBest(scores, i)
  {
    match i
    case None => NONE_YET
    case Some(j) => Best(scores[j].value.rank, scores[j].value.plat, scores[j].value.chip, PickOf(blobs, i))
  }

  /** _platform_dtbo_version_check, and the end of _validate_and_select_soc_dtbo, where there is no board version. */
  predicate Better(b: Best, k: Score) {
    b.rank < k.rank || (b.rank == k.rank && (b.plat < k.plat || (b.plat == k.plat && b.chip < k.chip)))
  }

  function Update(b: Best, k: Option<Score>, pick: Pick): Best {
    if k.Some? && Better(b, k.value) then Best(k.value.rank, k.value.plat, k.value.chip, Some(pick)) else b
  }

  lemma UpdateLeads(blobs: seq<Str>, scores: seq<Option<Score>>, b: Best, k: Option<Score>)
    requires |scores| < |blobs| && Leads(blobs, scores, b)
    ensures Leads(blobs, scores + [k], Update(b, k, Pick(|Joined(blobs[..|scores|])|, |blobs[|scores|]|)))
  {
    hide Joined;
    var i: Option<nat> :| IsBest(scores, i) && b == BestOf(blobs, scores, i);
    BestMore(scores, i, k);
    var j := if k.Some? && (i.None? || Less(scores[i.value].value, k.value)) then Some(|scores|) else i;
    assert IsBest(scores + [k], j);
    assert Update(b, k, Pick(|Joined(blobs[..|scores|])|, |blobs[|scores|]|)) == BestOf(blobs, scores + [k], j);
  }

  lemma LeadsPicks(blobs: seq<Str>, scores: seq<Option<Score>>, b: Best)
    requires |scores| == |blobs| && Leads(blobs, scores, b)
    ensures PicksBest(blobs, scores, b.pick)
  {
    var i: Option<nat> :| IsBest(scores, i) && b == BestOf(blobs, scores, i);
  }

  lemma NoneLeads(blobs: seq<Str>)
    ensures Leads(blobs, [], NONE_YET)
  {
    assert IsBest([], None);
  }

  lemma RootsMore(fs: seq<Forest>, i: nat)
    requires AllRoots(fs) && i < |fs|
    ensures AllRoots(fs[..i]) && AllRoots(fs[..i + 1]) && fs[..i + 1] == fs[..i] + [fs[i]] && IsRoot(fs[i])
  {
  }

  lemma ScoresMore(fs: seq<Forest>, input: Input, i: nat)
    requires AllRoots(fs) && i < |fs|
    ensures AllRoots(fs[..i]) && AllRoots(fs[..i + 1]) && IsRoot(fs[i])
    ensures BaseScores(fs[..i + 1], input) == BaseScores(fs[..i], input) + [BaseScore(fs[i], input)]
    ensures SocScores(fs[..i + 1], input) == SocScores(fs[..i], input) + [SocScoreIn(fs[i], input)]
    ensures PlatScores(fs[..i + 1], input) == PlatScores(fs[..i], input) + [PlatScoreIn(fs[i], input)]
  {
    hide IsRoot, BaseScore, SocScoreIn, PlatScoreIn;
    RootsMore(fs, i);
  }

  /** One turn of the loop of _select_dtb_and_dtbos, for an entry with the blob b. */
  method Consider(b: Str, at: nat, input: Input, base: Best, soc: Best, plat: Best, ghost f: Forest)
    returns (err: int, base': Best, soc': Best, plat': Best)
    requires Framed(b) && Encodes(View(b), f) && IsRoot(f)
    requires base.rank == -1 || (base.rank == 0 && base.plat == 0 && base.chip == 0)
    ensures err == EntryError(f, input)
    ensures err == 0 ==> && base' == Update(base, BaseScore(f, input), Pick(at, |b|))
                         && soc' == Update(soc, SocScoreIn(f, input), Pick(at, |b|))
                         && plat' == Update(plat, PlatScoreIn(f, input), Pick(at, |b|))
                         && (base'.rank == -1 || (base'.rank == 0 && base'.plat == 0 && base'.chip == 0))
  {
    hide Encodes, PathTo, Off;
    base', soc', plat' := base, soc, plat;
    var v := ReadView(b);
    var off := PathOffset(v, BOARD_ID, f);
    if off < 0 {
      BoardOff(f);
      return GET_ROOT_NODE_FAILED, base, soc, plat;
    }
    BoardOff(f);
    ghost var p := Board(f).v;
    var r := Candidate(v, off, input, p);
    if r.Err? {
      return r.code, base, soc, plat;
    }
    if r.v.None? {
      return 0, base, soc, plat;
    }
    var c := r.v.value;
    match c.kind {
      case BaseDtb =>
        if base.rank == -1 && IsBase(c) {
          base' := Best(0, 0, 0, Some(Pick(at, |b|)));
        }
      case SocDtbo =>
        soc' := Update(soc, SocScore(c, input), Pick(at, |b|));
      case PlatDtbo =>
        var oem := CheckOem(v, off, input, p);
        plat' := Update(plat, PlatScore(c, oem, input), Pick(at, |b|));
    }
    err := 0;
  }

  lemma BoardOff(f: Forest)
    requires IsRoot(f)
    ensures Board(f).Ok? <==> OffRes(PathTo(f, BOARD_ID)) >= 0
  {
  }

  /**
   * _select_dtb_and_dtbos: every entry is looked at once, in order. The base tree is the first one for any chip of the
   * family at version 1.0; the overlays are the first ones, of those for the device, that no other comes above.
   */
  method SelectTrees(start: nat, image: Str, sized: bool, input: Input, ghost blobs: seq<Str>, ghost fs: seq<Forest>)
    returns (err: int, base: Option<Pick>, soc: Option<Pick>, plat: Option<Pick>)
    requires ImageHolds(image, sized, blobs, fs) && DeviceFits(input)
    ensures FailsFirst(start, sized, blobs, fs, input, err)
    ensures err == 0 <==> SizesAligned(start, sized, blobs)
                          && forall i | 0 <= i < |fs| :: Board(fs[i]).Ok? && CardOf(Board(fs[i]).v, input).Ok?
    ensures err == 0 ==> && PicksTop(blobs, BaseKeys(fs, input), 0, base)
                         && PicksTop(blobs, SocKeys(fs, input), 3, soc)
                         && PicksTop(blobs, PlatKeys(fs, input), 6, plat)
  {
    hide Leads, Framed, View, Encodes, Joined, Board, CardOf, BaseScore, SocScoreIn, PlatScoreIn, BaseScores, SocScores,
      PlatScores, PicksBest, PicksTop, BaseKeys, SocKeys, PlatKeys, Parallel, IsRoot, SizesAligned,
      EntryError;
    base, soc, plat := None, None, None;
    var at, b, s, t := 0, NONE_YET, NONE_YET, NONE_YET;
    ghost var i := 0;
    BeforeFirst(blobs, fs, input);
    WalksIff(start, sized, blobs, fs, input);
    while true
      invariant i <= |blobs| == |fs| && at == |Joined(blobs[..i])| <= |image| && AllRoots(fs) && AllRoots(fs[..i])
      invariant forall j | 0 <= j < i :: TurnError(start, sized, blobs, fs, input, j) == 0
      invariant b.rank == -1 || (b.rank == 0 && b.plat == 0 && b.chip == 0)
      invariant |BaseScores(fs[..i], input)| == |SocScores(fs[..i], input)| == |PlatScores(fs[..i], input)| == i
      invariant Leads(blobs, BaseScores(fs[..i], input), b) && Leads(blobs, SocScores(fs[..i], input), s)
                && Leads(blobs, PlatScores(fs[..i], input), t)
      decreases |blobs| - i
    {
      var e, end, size := NextEntry(start, image, sized, at, blobs, fs, i);
      if e != 0 {
        assert TurnError(start, sized, blobs, fs, input, i) == e;
        return e, None, None, None;
      }
      if end {
        break;
      }
      ghost var b0, s0, t0 := b, s, t;
      e, b, s, t := Consider(image[at..at + size], at, input, b, s, t, fs[i]);
      assert TurnError(start, sized, blobs, fs, input, i) == e;
      if e != 0 {
        return e, None, None, None;
      }
      ScoresMore(fs, input, i);
      UpdateLeads(blobs, BaseScores(fs[..i], input), b0, BaseScore(fs[i], input));
      UpdateLeads(blobs, SocScores(fs[..i], input), s0, SocScoreIn(fs[i], input));
      UpdateLeads(blobs, PlatScores(fs[..i], input), t0, PlatScoreIn(fs[i], input));
      EntryAt(image, sized, blobs, fs, i);
      at, i := at + size, i + 1;
    }
    assert fs[..i] == fs;
    assert FailsFirst(start, sized, blobs, fs, input, 0);
    LeadsPicks(blobs, BaseScores(fs, input), b);
    LeadsPicks(blobs, SocScores(fs, input), s);
    LeadsPicks(blobs, PlatScores(fs, input), t);
    AllParallel(fs, input);
    BestIsTop(blobs, BaseScores(fs, input), BaseKeys(fs, input), 0, b.pick);
    BestIsTop(blobs, SocScores(fs, input), SocKeys(fs, input), 3, s.pick);
    BestIsTop(blobs, PlatScores(fs, input), PlatKeys(fs, input), 6, t.pick);
    return 0, b.pick, s.pick, t.pick;
  }

  lemma BeforeFirst(blobs: seq<Str>, fs: seq<Forest>, input: Input)
    requires AllRoots(fs)
    ensures Joined(blobs[..0]) == [] && AllRoots(fs[..0])
    ensures BaseScores(fs[..0], input) == [] && SocScores(fs[..0], input) == [] && PlatScores(fs[..0], input) == []
    ensures Leads(blobs, [], NONE_YET)
  {
    NoneLeads(blobs);
  }
}
