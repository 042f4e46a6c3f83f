/**
 * Images whose entries are all as they should be and on which the selection fails: the walk goes on by the size of each
 * blob, which need not be a multiple of 8, while headers are accepted at multiples of 8 only.
 */
module Misaligned {
  import opened Bytes
  import opened Tree
  import opened Encoding
  import opened Positions
  import opened Tags
  import opened FdtRead
  import opened Overlay
  import opened Check
  import opened Paths
  import opened Select
  import opened Accepted

  const BOARD: Str := [0x62, 0x6f, 0x61, 0x72, 0x64, 0x2d, 0x69, 0x64]  // board-id

  /** / { board-id { } } */
  function Plain(): Forest {
    SubF([], SubF(BOARD, Nil, Nil), Nil)
  }

  function Zeros(n: nat): (z: Str)
    ensures |z| == n && forall i | 0 <= i < n :: z[i] == 0
  {
    seq(n, _ => 0)
  }

  // ----- One blob of 92 bytes -----

  function BeginRoot(): Str {
    Put32(BEGIN_NODE) + Zeros(4)
  }

  function BeginBoard(): Str {
    Put32(BEGIN_NODE) + BOARD + Zeros(4)
  }

  function Tags36(): (b: Str)
    ensures |b| == 36
  {
    BeginRoot() + (BeginBoard() + (Put32(END_NODE) + (Put32(END_NODE) + Put32(END))))
  }

  /** The end of an empty reserve map, and the tags; there are no strings. */
  function Body92(): (b: Str)
    ensures |b| == 92
  {
    Zeros(56) + Tags36()
  }

  const HEADER_92 := Header(92, 56, 92, 40, 16, 0, 0, 36)

  function Blob92(): (b: Str)
    ensures |b| == 92
  {
    WithHeader(HEADER_92, Body92())
  }

  lemma BlobHolds()
    ensures var b := Blob92(); Framed(b) && TotalSize(b) == |b| && Encodes(View(b), Plain()) && IsRoot(Plain())
  {
    hide Encodes, Tags36, WithHeader;
    assert Block(Body92(), 56, 36) == Tags36() && Block(Body92(), 92, 0) == [];
    HeaderFramed(HEADER_92, Body92());
    TagsRep();
  }

  lemma RootRep()
    ensures RepAll([], BeginRoot(), [Begin([])]) && RepAll([], BeginBoard(), [Begin(BOARD)])
  {
    PutGet32(BEGIN_NODE);
    RepOne([], BeginRoot(), Begin([]));
    RepOne([], BeginBoard(), Begin(BOARD));
    assert BeginBoard()[4..12] == BOARD && BeginBoard()[12] == 0;
    assert BeginRoot()[4..4] == [] && BeginRoot()[4] == 0;
  }

  lemma EndReps()
    ensures RepAll([], Put32(END_NODE), [EndNode]) && RepAll([], Put32(END), [End])
  {
    PutGet32(END_NODE);
    PutGet32(END);
    RepOne([], Put32(END_NODE), EndNode);
    RepOne([], Put32(END), End);
  }

  lemma TagsRep()
    ensures Encodes(Fdt(Tags36(), []), Plain())
  {
    hide RepAll, Put32, BeginRoot, BeginBoard;
    RootRep();
    EndReps();
    RepJoin([], Put32(END_NODE), [EndNode], Put32(END), [End]);
    RepJoin([], Put32(END_NODE), [EndNode], Put32(END_NODE) + Put32(END), [EndNode] + [End]);
    RepJoin([], BeginBoard(), [Begin(BOARD)], Put32(END_NODE) + (Put32(END_NODE) + Put32(END)),
      [EndNode] + ([EndNode] + [End]));
    RepJoin([], BeginRoot(), [Begin([])], BeginBoard() + (Put32(END_NODE) + (Put32(END_NODE) + Put32(END))),
            [Begin(BOARD)] + ([EndNode] + ([EndNode] + [End])));
    PlainFlat();
    assert Tags36()[..36] == Tags36();
  }

  lemma PlainFlat()
    ensures Flat(Plain()) + [End] == [Begin([])] + ([Begin(BOARD)] + ([EndNode] + ([EndNode] + [End])))
    ensures FSize(Plain()) + 4 == 36
  {
    assert Flat(Forest.Nil) == [];
    assert Flat(SubF(BOARD, Nil, Nil)) == [Begin(BOARD), EndNode];
    assert Flat(Plain()) == [Begin([]), Begin(BOARD), EndNode, EndNode];
  }

  // ----- It has a board node, and nothing to select -----

  lemma BoardFound(input: Input)
    ensures IsRoot(Plain()) && EntryError(Plain(), input) == 0
  {
    hide Comps, KindOf;
    BoardPath();
    var root := Pos(Top, Plain());
    var q := Pos(In(InBody([], Nil), Top), SubF(BOARD, Nil, Nil));
    assert Enter(root) == q;
    assert BOARD[..8] == BOARD;
    assert FindSub(q, Named(BOARD)) == Some(q);
    assert [BOARD][1..] == [] && PathFrom(q, []) == Some(q);
    assert PathFrom(root, [BOARD]) == Some(q);
    assert Read(q, CHIP_INFO) == None;
  }

  lemma BoardPath()
    ensures Comps(BOARD_ID) == [BOARD] && BOARD_ID[0] == SLASH
  {
    assert BOARD_ID == [SLASH] + (BOARD + [SLASH]);
    assert SLASH !in BOARD;
    OneComp(BOARD, [SLASH]);
    CompsSkip([SLASH]);
    assert [SLASH][1..] == [];
    NoComps();
  }

  // ----- The images -----

  lemma Fronts(b: Str)
    ensures var none: seq<Str> := []; [b, b][..1] == [b] == [b][..1] && [b, b][..0] == [b][..0] == none
  {
  }

  lemma JoinedTwo(b: Str)
    ensures Joined([b]) == b && Joined([b, b]) == b + b && Joined([]) == []
  {
    Fronts(b);
    assert [] + b == b;
  }

  /** An image of known size with two such blobs: the second header is not accepted. */
  lemma SecondMisaligned(start: nat, input: Input)
    requires start % 8 == 0
    ensures var b, f := Blob92(), Plain();
            && ImageHolds(b + b, true, [b, b], [f, f]) && Board(f).Ok? && CardOf(Board(f).v, input).Ok?
            && FailsFirst(start, true, [b, b], [f, f], input, -ALIGNMENT)
  {
    hide Encodes, Framed, View, EntryError, Joined, Board, CardOf, Blob92, Plain, TotalSize, IsRoot;
    var b, f := Blob92(), Plain();
    BlobHolds();
    BoardFound(input);
    CardCodes(f, input);
    JoinedTwo(b);
    Fronts(b);
    assert EntryAddr(start, [b, b], 0) == start && EntryAddr(start, [b, b], 1) == start + 92;
    assert TurnError(start, true, [b, b], [f, f], input, 0) == 0
           && TurnError(start, true, [b, b], [f, f], input, 1) == -ALIGNMENT;
  }

  /** An image of unknown size with one such blob and zeros behind it: the end is not recognised. */
  lemma EndMisaligned(start: nat, input: Input)
    requires start % 8 == 0
    ensures var b, f := Blob92(), Plain();
            && ImageHolds(b + Zeros(40), false, [b], [f]) && Board(f).Ok? && CardOf(Board(f).v, input).Ok?
            && FailsFirst(start, false, [b], [f], input, -ALIGNMENT)
  {
    hide Encodes, Framed, View, EntryError, Joined, Board, CardOf, Blob92, Plain, TotalSize, IsRoot;
    var b, f := Blob92(), Plain();
    BlobHolds();
    BoardFound(input);
    CardCodes(f, input);
    JoinedTwo(b);
    Fronts(b);
    assert EntryAddr(start, [b], 0) == start && EntryAddr(start, [b], 1) == start + 92;
    assert TurnError(start, false, [b], [f], input, 0) == 0
           && TurnError(start, false, [b], [f], input, 1) == -ALIGNMENT;
  }
}
