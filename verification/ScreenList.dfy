/** src/gui/src/ScreenList.cpp: placing a screen next to the server. */
module ScreenLists {
  import opened Options
  import opened Grid

  datatype Screen = Screen(name: string, server: bool) {
    predicate IsNull() {
      name == ""
    }
  }

  /** The first free cell from `from` on, or the length of the list. */
  function FirstFree(screens: seq<Screen>, from: nat): (i: nat)
    requires from <= |screens|
    ensures from <= i <= |screens|
    ensures i < |screens| ==> screens[i].IsNull()
    ensures forall k :: from <= k < i ==> !screens[k].IsNull()
    decreases |screens| - from
  {
    if from < |screens| && !screens[from].IsNull() then FirstFree(screens, from + 1) else from
  }

  /** The first cell of the server, or the length of the list. */
  function ServerIndex(screens: seq<Screen>, from: nat): (i: nat)
    requires from <= |screens|
    ensures from <= i <= |screens|
    ensures i < |screens| ==> screens[i].server
    ensures forall k :: from <= k < i ==> !screens[k].server
    decreases |screens| - from
  {
    if from < |screens| && !screens[from].server then ServerIndex(screens, from + 1) else from
  }

  function Placed(screens: seq<Screen>, i: nat, s: Screen): seq<Screen> {
    if i < |screens| then screens[i := s] else screens
  }

  const UNSET := -1

  /** The indexes around the server, -1 for none. Without a server only the first of the
    * eight is unset; the others are zero. */
  function NeighborsIndexes(server: int, width: nat, size: nat): (r: seq<int>)
    requires width > 0
    ensures |r| == 8
  {
    if 0 <= server < size then
      var left := if Rem(server - 1, width) != width - 1 then server - 1 else UNSET;
      var right := if (server + 1) % width != 0 then server + 1 else UNSET;
      var top := if server - width >= 0 then server - width else UNSET;
      var bottom := if server + width < size then server + width else UNSET;
      [left, right, top, bottom,
       if top != UNSET && left != UNSET then top - 1 else UNSET,
       if top != UNSET && right != UNSET then top + 1 else UNSET,
       if bottom != UNSET && right != UNSET then bottom + 1 else UNSET,
       if bottom != UNSET && left != UNSET then bottom - 1 else UNSET]
    else [UNSET, 0, 0, 0, 0, 0, 0, 0]
  }

  /** The documented order of preference. */
  const DIRS := [LEFT, RIGHT, UP, DOWN, Dir(-1, -1), Dir(1, -1), Dir(1, 1), Dir(-1, 1)]

  function Index(n: Option<nat>): int {
    if n.Some? then n.value else UNSET
  }

  /** The indexes are those of the neighbouring cells, and what is beyond an edge is unset. */
  predicate Exact(server: nat, width: nat, size: nat)
    requires width > 0
  {
    forall d :: 0 <= d < 8 ==>
      NeighborsIndexes(server, width, size)[d] == Index(Neighbour(server, DIRS[d], width, size))
  }

  /** In a list of any length, the indexes of a server are exact if and only if the rows are full
    * or the server is none of these three: the last cell of the short row, whose right index is
    * the size of the list; the cell whose bottom right index is; and the cell with no cell
    * below, for which the one to the left of that is missed. */
  lemma NeighborsAreExactIff(server: nat, width: nat, size: nat)
    requires width > 0 && server < size
    ensures Exact(server, width, size) <==>
      size % width == 0 || (server != size - 1 && server + width + 1 != size && server + width != size)
  {
    hide Neighbour, Row, Col, NeighborsIndexes;
    TestsAreExact(server, width, size);
    EdgeOfRow(server, width, size);
    assert DIRS[0] == LEFT && DIRS[1] == RIGHT && DIRS[2] == UP && DIRS[3] == DOWN;
    assert DIRS[4] == Dir(-1, -1) && DIRS[5] == Dir(1, -1) && DIRS[6] == Dir(1, 1) && DIRS[7] == Dir(-1, 1);
    InGrid(server, LEFT, width, size);
    InGrid(server, RIGHT, width, size);
    InGrid(server, UP, width, size);
    InGrid(server, DOWN, width, size);
    InGrid(server, Dir(-1, -1), width, size);
    InGrid(server, Dir(1, -1), width, size);
    InGrid(server, Dir(1, 1), width, size);
    InGrid(server, Dir(-1, 1), width, size);
  }

  /** A cell as far from the end as a full row asks for stands in the last or first column. */
  lemma EdgeOfRow(server: nat, width: nat, size: nat)
    requires width > 0 && server < size
    ensures server + 1 == size || server + width + 1 == size ==>
      (size % width == 0 <==> Col(server, width) == width - 1)
    ensures server + width == size ==> (size % width == 0 <==> Col(server, width) == 0)
  {
    NextColumn(server, width);
    NextColumn(server + width, width);
    Split(server, width);
    var x, y := Col(server, width), Row(server, width);
    assert (y + 1) * width == y * width + width;
    Unique(server + width, width, x, y + 1);
  }

  /** The tests on indexes are tests on columns and rows. */
  lemma TestsAreExact(server: nat, width: nat, size: nat)
    requires width > 0 && server < size
    ensures var left, right, top, bottom :=
        Col(server, width) > 0, Col(server, width) + 1 < width, Row(server, width) > 0, server + width < size;
      NeighborsIndexes(server, width, size) ==
        [if left then server - 1 else UNSET, if right then server + 1 else UNSET,
         if top then server - width else UNSET, if bottom then server + width else UNSET,
         if top && left then server - width - 1 else UNSET, if top && right then server - width + 1 else UNSET,
         if bottom && right then server + width + 1 else UNSET, if bottom && left then server + width - 1 else UNSET]
    ensures Col(server, width) < width
    ensures Row(server, width) > 0 <==> server >= width
  {
    hide Rem;
    PreviousColumn(server, width);
    NextColumn(server, width);
    RowBounds(server, width, size);
  }

  /** Servers of a short last row: one whose right index is past the end, and one with a corner
    * below that is missed. */
  lemma ShortRowExamples()
    ensures NeighborsIndexes(3, 3, 4)[1] == 4 && Neighbour(3, RIGHT, 3, 4) == None
    ensures NeighborsIndexes(0, 3, 4)[6] == 4 && Neighbour(0, Dir(1, 1), 3, 4) == None
    ensures NeighborsIndexes(1, 3, 4)[7] == UNSET && Neighbour(1, Dir(-1, 1), 3, 4) == Some(3)
  {
  }

  /** A step of at most one column and one row stays in the grid exactly when it stays in the
    * columns and in the list. */
  lemma InGrid(i: nat, d: Dir, width: nat, size: nat)
    requires width > 0 && i < size && -1 <= d.dy <= 1
    ensures Neighbour(i, d, width, size) ==
      if 0 <= Col(i, width) + d.dx < width && 0 <= Row(i, width) + d.dy && i + d.dx + d.dy * width < size
      then Some(i + d.dx + d.dy * width) else None
  {
    Split(i, width);
    assert (Row(i, width) + d.dy) * width == Row(i, width) * width + d.dy * width;
  }

  /** A free cell of the list. */
  predicate Free(screens: seq<Screen>, i: int) {
    0 <= i < |screens| && screens[i].IsNull()
  }

  /** Where a screen goes: the first free cell among `indexes`, or else the first free cell. */
  function FirstFreeOf(screens: seq<Screen>, indexes: seq<int>): (i: nat)
    ensures i <= |screens| && (i < |screens| ==> screens[i].IsNull())
    ensures i == |screens| ==> forall k :: 0 <= k < |screens| ==> !screens[k].IsNull()
  {
    if indexes == [] then FirstFree(screens, 0)
    else if Free(screens, indexes[0]) then indexes[0]
    else FirstFreeOf(screens, indexes[1..])
  }

  /** The same as documented: the first free cell among the neighbours in order. */
  function FirstFreeBeside(screens: seq<Screen>, server: nat, width: nat, dirs: seq<Dir>): nat
    requires width > 0
  {
    if dirs == [] then FirstFree(screens, 0)
    else
      var n := Index(Neighbour(server, dirs[0], width, |screens|));
      if Free(screens, n) then n else FirstFreeBeside(screens, server, width, dirs[1..])
  }

  predicate AnyFreeBeside(screens: seq<Screen>, server: nat, width: nat, dirs: seq<Dir>)
    requires width > 0
  {
    exists d :: 0 <= d < |dirs| && Free(screens, Index(Neighbour(server, dirs[d], width, |screens|)))
  }

  /** Two lists of indexes that differ only in cells that are not free lead to the same choice. */
  lemma {:induction false} SameChoice(screens: seq<Screen>, server: nat, width: nat, indexes: seq<int>, dirs: seq<Dir>)
    requires width > 0 && |indexes| == |dirs|
    requires forall d :: 0 <= d < |dirs| ==>
      var n := Index(Neighbour(server, dirs[d], width, |screens|));
      Free(screens, indexes[d]) || Free(screens, n) ==> indexes[d] == n
    ensures FirstFreeOf(screens, indexes) == FirstFreeBeside(screens, server, width, dirs)
  {
    if dirs != [] {
      assert forall d :: 0 <= d < |dirs[1..]| ==> indexes[1..][d] == indexes[d + 1] && dirs[1..][d] == dirs[d + 1];
      SameChoice(screens, server, width, indexes[1..], dirs[1..]);
    }
  }

  /** The last direction matters only when nothing is free before. */
  lemma {:induction false} LastDirection(screens: seq<Screen>, server: nat, width: nat, dirs: seq<Dir>, last: Dir)
    requires width > 0
    ensures var n := Index(Neighbour(server, last, width, |screens|));
      FirstFreeBeside(screens, server, width, dirs + [last]) ==
        if AnyFreeBeside(screens, server, width, dirs) || !Free(screens, n) then
          FirstFreeBeside(screens, server, width, dirs)
        else n
    ensures !AnyFreeBeside(screens, server, width, dirs) ==>
      FirstFreeBeside(screens, server, width, dirs) == FirstFree(screens, 0)
    ensures AnyFreeBeside(screens, server, width, dirs) ==>
      FirstFreeBeside(screens, server, width, dirs + [last]) == FirstFreeBeside(screens, server, width, dirs)
  {
    hide Neighbour;
    if dirs == [] {
      assert [last][1..] == [];
    } else {
      assert (dirs + [last])[1..] == dirs[1..] + [last];
      LastDirection(screens, server, width, dirs[1..], last);
      AnyFreeStep(screens, server, width, dirs);
    }
  }

  lemma AnyFreeStep(screens: seq<Screen>, server: nat, width: nat, dirs: seq<Dir>)
    requires width > 0 && dirs != []
    ensures AnyFreeBeside(screens, server, width, dirs) <==>
      || Free(screens, Index(Neighbour(server, dirs[0], width, |screens|)))
      || AnyFreeBeside(screens, server, width, dirs[1..])
  {
    hide Neighbour, Free;
    if AnyFreeBeside(screens, server, width, dirs) {
      var d :| 0 <= d < |dirs| && Free(screens, Index(Neighbour(server, dirs[d], width, |screens|)));
      assert d > 0 ==> dirs[1..][d - 1] == dirs[d];
    }
    if AnyFreeBeside(screens, server, width, dirs[1..]) {
      var d :| 0 <= d < |dirs[1..]| && Free(screens, Index(Neighbour(server, dirs[1..][d], width, |screens|)));
      assert dirs[d + 1] == dirs[1..][d];
    }
  }

  /** The cell `addScreenByPriority` chooses. */
  function PriorityCell(screens: seq<Screen>, width: nat): nat
    requires width > 0
  {
    var server := ServerIndex(screens, 0);
    FirstFreeOf(screens, NeighborsIndexes(if server < |screens| then server else -1, width, |screens|))
  }

  /** In a list of any length the cell chosen is the documented one, unless the server is the cell
    * of a short list with none below, the missed corner is free, no neighbour before it in the
    * order is, and some earlier cell is. Without a server it is the first free cell. */
  lemma PriorityIsAsDocumentedIff(screens: seq<Screen>, width: nat)
    requires width > 0
    ensures var server, size := ServerIndex(screens, 0), |screens|;
      if server < size then
        PriorityCell(screens, width) == FirstFreeBeside(screens, server, width, DIRS) <==>
          !(size % width != 0 && server + width == size && Free(screens, size - 1)
            && !AnyFreeBeside(screens, server, width, DIRS[..7]) && FirstFree(screens, 0) != size - 1)
      else
        PriorityCell(screens, width) == FirstFree(screens, 0)
  {
    hide Neighbour, NeighborsIndexes, FirstFreeBeside, AnyFreeBeside;
    var server, size := ServerIndex(screens, 0), |screens|;
    if server < size {
      if size % width != 0 && server + width == size {
        CornerMissed(screens, server, width);
        assert DIRS == DIRS[..7] + [Dir(-1, 1)];
        LastDirection(screens, server, width, DIRS[..7], Dir(-1, 1));
      } else {
        NothingMissed(screens, server, width);
      }
    } else {
      NoServer(screens, width);
    }
  }

  lemma NothingMissed(screens: seq<Screen>, server: nat, width: nat)
    requires width > 0 && server < |screens| && (|screens| % width == 0 || server + width != |screens|)
    ensures FirstFreeOf(screens, NeighborsIndexes(server, width, |screens|)) ==
      FirstFreeBeside(screens, server, width, DIRS)
  {
    hide Neighbour, NeighborsIndexes, FirstFreeBeside, FirstFreeOf;
    FreeIndexesAgree(screens, server, width);
    SameChoice(screens, server, width, NeighborsIndexes(server, width, |screens|), DIRS);
  }

  /** Indexes past the end do no harm; only the missed corner does. */
  lemma FreeIndexesAgree(screens: seq<Screen>, server: nat, width: nat)
    requires width > 0 && server < |screens|
    ensures forall d :: 0 <= d < 8 && (d < 7 || |screens| % width == 0 || server + width != |screens|) ==>
      var i, n := NeighborsIndexes(server, width, |screens|)[d], Index(Neighbour(server, DIRS[d], width, |screens|));
      Free(screens, i) || Free(screens, n) ==> i == n
  {
    hide Neighbour, Row, Col, NeighborsIndexes;
    TestsAreExact(server, width, |screens|);
    EdgeOfRow(server, width, |screens|);
    forall d | 0 <= d < 8 && (d < 7 || |screens| % width == 0 || server + width != |screens|)
      ensures
        var i := NeighborsIndexes(server, width, |screens|)[d];
        var n := Index(Neighbour(server, DIRS[d], width, |screens|));
        Free(screens, i) || Free(screens, n) ==> i == n
    {
      InGrid(server, DIRS[d], width, |screens|);
    }
  }

  lemma CornerMissed(screens: seq<Screen>, server: nat, width: nat)
    requires width > 0 && server < |screens| && |screens| % width != 0 && server + width == |screens|
    ensures FirstFreeOf(screens, NeighborsIndexes(server, width, |screens|)) ==
      FirstFreeBeside(screens, server, width, DIRS[..7])
    ensures Neighbour(server, Dir(-1, 1), width, |screens|) == Some(|screens| - 1)
  {
    hide Neighbour, NeighborsIndexes, Row, Col, FirstFreeBeside;
    var r := NeighborsIndexes(server, width, |screens|);
    TestsAreExact(server, width, |screens|);
    EdgeOfRow(server, width, |screens|);
    InGrid(server, Dir(-1, 1), width, |screens|);
    assert r[7] == UNSET && r == r[..7] + [UNSET];
    UnsetLast(screens, r[..7]);
    FreeIndexesAgree(screens, server, width);
    SameChoice(screens, server, width, r[..7], DIRS[..7]);
  }

  lemma {:induction false} UnsetLast(screens: seq<Screen>, indexes: seq<int>)
    ensures FirstFreeOf(screens, indexes + [UNSET]) == FirstFreeOf(screens, indexes)
  {
    if indexes == [] {
      assert [UNSET][1..] == [];
    } else {
      assert (indexes + [UNSET])[1..] == indexes[1..] + [UNSET];
      UnsetLast(screens, indexes[1..]);
    }
  }

  lemma NoServer(screens: seq<Screen>, width: nat)
    requires width > 0
    ensures FirstFreeOf(screens, NeighborsIndexes(-1, width, |screens|)) == FirstFree(screens, 0)
  {
    OnlyFirstCell(screens, [0, 0, 0, 0, 0, 0, 0]);
    assert NeighborsIndexes(-1, width, |screens|)[1..] == [0, 0, 0, 0, 0, 0, 0];
  }

  const TAKEN := Screen("a", false)
  const FREE := Screen("", false)

  /** Four columns and five cells: the corner below the server is cell 4, and the only neighbour
    * that is free, but cell 3 is taken. */
  const SHORT := [TAKEN, Screen("s", true), TAKEN, FREE, FREE]

  lemma CornerPassedOver()
    ensures ServerIndex(SHORT, 0) == 1
    ensures PriorityCell(SHORT, 4) == 3 && FirstFreeBeside(SHORT, 1, 4, DIRS) == 4
  {
    hide FirstFreeBeside, AnyFreeBeside, NeighborsIndexes;
    assert SHORT[1].server && SHORT[3].IsNull() && !SHORT[0].IsNull() && !SHORT[1].IsNull() && !SHORT[2].IsNull();
    assert FirstFree(SHORT, 0) == 3;
    CornerMissed(SHORT, 1, 4);
    NoneBesideShort();
    assert DIRS == DIRS[..7] + [Dir(-1, 1)];
    LastDirection(SHORT, 1, 4, DIRS[..7], Dir(-1, 1));
  }

  lemma NoneBesideShort()
    ensures !AnyFreeBeside(SHORT, 1, 4, DIRS[..7])
  {
    forall d | 0 <= d < 7 ensures !Free(SHORT, Index(Neighbour(1, DIRS[..7][d], 4, |SHORT|))) {
      assert DIRS[..7][d] == DIRS[d];
    }
  }

  lemma FirstFreeStep(screens: seq<Screen>, x: int, rest: seq<int>)
    ensures FirstFreeOf(screens, [x] + rest) ==
      if 0 <= x < |screens| && screens[x].name == "" then x else FirstFreeOf(screens, rest)
  {
    assert ([x] + rest)[1..] == rest;
  }

  /** The first of eight cells that is free, in their order. */
  lemma FirstFreeOfEight(screens: seq<Screen>, a: int, b: int, c: int, d: int, e: int, f: int, g: int, h: int)
    ensures FirstFreeOf(screens, [a, b, c, d, e, f, g, h]) ==
      if Free(screens, a) then a else if Free(screens, b) then b else if Free(screens, c) then c
      else if Free(screens, d) then d else if Free(screens, e) then e else if Free(screens, f) then f
      else if Free(screens, g) then g else if Free(screens, h) then h else FirstFree(screens, 0)
  {
    FirstFreeStep(screens, a, [b, c, d, e, f, g, h]);
    FirstFreeStep(screens, b, [c, d, e, f, g, h]);
    FirstFreeStep(screens, c, [d, e, f, g, h]);
    FirstFreeStep(screens, d, [e, f, g, h]);
    FirstFreeStep(screens, e, [f, g, h]);
    FirstFreeStep(screens, f, [g, h]);
    FirstFreeStep(screens, g, [h]);
    FirstFreeStep(screens, h, []);
    assert [h] == [h] + [];
  }

  /** A screen goes to the first free of the eight cells around the server, or else to the first free
    * cell of the list. */
  lemma PriorityCellIs(screens: seq<Screen>, width: nat)
    requires width > 0
    ensures var s := ServerIndex(screens, 0);
      PriorityCell(screens, width) ==
        if s < |screens| then FirstFreeOf(screens, NeighborsIndexes(s, width, |screens|)) else FirstFree(screens, 0)
  {
    PriorityIsAsDocumentedIff(screens, width);
  }

  /** Those cells, in a list of any length: left of the server, right, above, below, then above left,
    * above right, below right and below left. A corner below is only there with a cell below. */
  lemma IndexesAre(s: nat, width: nat, size: nat)
    requires width > 0 && s < size
    ensures var left, right, top, bottom := s % width != 0, s % width != width - 1, s >= width, s + width < size;
      NeighborsIndexes(s, width, size) ==
        [if left then s - 1 else -1, if right then s + 1 else -1,
         if top then s - width else -1, if bottom then s + width else -1,
         if top && left then s - width - 1 else -1, if top && right then s - width + 1 else -1,
         if bottom && right then s + width + 1 else -1, if bottom && left then s + width - 1 else -1]
  {
    hide NeighborsIndexes, Row;
    TestsAreExact(s, width, size);
  }

  // ---------------------------------------------- the width of the list and of the grid

  /** The indexes by the width of the list are the neighbours in a grid of so many columns. */
  predicate ExactFor(server: nat, width: nat, columns: nat, size: nat)
    requires width > 0 && columns > 0
  {
    forall d :: 0 <= d < 8 ==>
      NeighborsIndexes(server, width, size)[d] == Index(Neighbour(server, DIRS[d], columns, size))
  }

  /** They are for every server of every grid of full rows. */
  ghost predicate AlwaysExact(width: nat, columns: nat)
    requires width > 0 && columns > 0
  {
    forall server: nat, size: nat :: server < size && size % columns == 0 ==> ExactFor(server, width, columns, size)
  }

  /** The width of the list has to be the number of columns. */
  lemma WidthsAgreeIff(width: nat, columns: nat)
    requires width > 0 && columns > 0
    ensures AlwaysExact(width, columns) <==> width == columns
  {
    hide NeighborsIndexes, Neighbour, ExactFor;
    if width == columns {
      forall server: nat, size: nat | server < size && size % columns == 0
        ensures ExactFor(server, width, columns, size)
      {
        NeighborsAreExactIff(server, width, size);
        ExactIsExactFor(server, width, size);
      }
    } else {
      WrongLeft(width, columns);
    }
  }

  lemma ExactIsExactFor(server: nat, width: nat, size: nat)
    requires width > 0
    ensures Exact(server, width, size) <==> ExactFor(server, width, width, size)
  {
  }

  /** Otherwise a cell has a left neighbour by one of the two and not by the other. */
  lemma WrongLeft(width: nat, columns: nat)
    requires width > 0 && columns > 0 && width != columns
    ensures var server := if columns % width != 0 then columns else width;
      server < 2 * columns && 2 * columns % columns == 0 && !ExactFor(server, width, columns, 2 * columns)
  {
    Unique(2 * columns, columns, 0, 2);
    if columns % width != 0 {
      PreviousColumn(columns, width);
      Unique(columns, columns, 0, 1);
    } else {
      Divides(columns, width);
      Unique(width, width, 0, 1);
      PreviousColumn(width, width);
      Unique(width, columns, width, 0);
    }
    assert DIRS[0] == LEFT;
  }

  lemma Divides(a: nat, b: nat)
    requires a > 0 && b > 0 && a != b && a % b == 0
    ensures a > b
  {
  }

  /** Where the documentation would put a screen in a grid of so many columns. */
  function DocumentedCell(screens: seq<Screen>, columns: nat): nat
    requires columns > 0
  {
    var server := ServerIndex(screens, 0);
    if server < |screens| then FirstFreeBeside(screens, server, columns, DIRS) else FirstFree(screens, 0)
  }

  /** It is where a list of that width puts it, for every grid of full rows. */
  ghost predicate AlwaysDocumented(width: nat, columns: nat)
    requires width > 0 && columns > 0
  {
    forall screens: seq<Screen> ::
      |screens| % columns == 0 ==> PriorityCell(screens, width) == DocumentedCell(screens, columns)
  }

  /** A screen goes beside the server as documented, in every grid, if and only if the width of the
    * list is the number of columns. */
  lemma PlacementIsDocumentedIff(width: nat, columns: nat)
    requires width > 0 && columns > 0
    ensures AlwaysDocumented(width, columns) <==> width == columns
  {
    hide PriorityCell, DocumentedCell;
    if width == columns {
      forall screens: seq<Screen> | |screens| % columns == 0
        ensures PriorityCell(screens, width) == DocumentedCell(screens, columns)
      {
        SameWidth(screens, width);
      }
    } else {
      var w := Misplaced(width, columns);
    }
  }

  lemma SameWidth(screens: seq<Screen>, width: nat)
    requires width > 0 && |screens| % width == 0
    ensures PriorityCell(screens, width) == DocumentedCell(screens, width)
  {
    hide PriorityCell, FirstFreeBeside;
    PriorityIsAsDocumentedIff(screens, width);
  }

  /** A list with nothing but the server in it. */
  function OnlyServer(size: nat, at: nat): (screens: seq<Screen>)
    requires at < size
    ensures |screens| == size
    ensures forall i :: 0 <= i < size ==> screens[i] == if i == at then Screen("s", true) else FREE
  {
    seq(size, i => if i == at then Screen("s", true) else FREE)
  }

  lemma OnlyServerIs(size: nat, at: nat)
    requires at < size
    ensures ServerIndex(OnlyServer(size, at), 0) == at
    ensures forall i :: Free(OnlyServer(size, at), i) <==> 0 <= i < size && i != at
  {
    var screens := OnlyServer(size, at);
    assert screens[at].server;
  }

  /** For any two numbers that differ, a grid with only the server in it in which the screen goes
    * elsewhere. */
  lemma Misplaced(width: nat, columns: nat) returns (screens: seq<Screen>)
    requires width > 0 && columns > 0 && width != columns
    ensures |screens| % columns == 0 && PriorityCell(screens, width) != DocumentedCell(screens, columns)
  {
    if columns == 1 {
      screens := OnlyServer(width + 2, width);
      OneColumn(width);
    } else {
      Unique(2 * columns, columns, 0, 2);
      if columns % width != 0 || width == 1 {
        screens := OnlyServer(2 * columns, columns);
        EndOfRowAbove(width, columns);
      } else {
        Divides(columns, width);
        screens := OnlyServer(2 * columns, width);
        LeftNotSeen(width, columns);
      }
    }
  }

  /** The server begins a row; the screen goes to the end of the row above. */
  lemma EndOfRowAbove(width: nat, columns: nat)
    requires width > 0 && columns >= 2 && (columns % width != 0 || width == 1)
    ensures PriorityCell(OnlyServer(2 * columns, columns), width) == columns - 1
    ensures DocumentedCell(OnlyServer(2 * columns, columns), columns) == columns + 1
  {
    hide Neighbour, NeighborsIndexes;
    OnlyServerIs(2 * columns, columns);
    TestsAreExact(columns, width, 2 * columns);
    FirstThree(OnlyServer(2 * columns, columns), NeighborsIndexes(columns, width, 2 * columns));
    Unique(columns, columns, 0, 1);
    InGrid(columns, LEFT, columns, 2 * columns);
    InGrid(columns, RIGHT, columns, 2 * columns);
    BesideFirst(OnlyServer(2 * columns, columns), columns, columns);
  }

  /** The server has a left neighbour that the width of the list does not show. */
  lemma LeftNotSeen(width: nat, columns: nat)
    requires 2 <= width < columns && columns % width == 0
    ensures PriorityCell(OnlyServer(2 * columns, width), width) == width + 1
    ensures DocumentedCell(OnlyServer(2 * columns, width), columns) == width - 1
  {
    hide Neighbour, NeighborsIndexes;
    OnlyServerIs(2 * columns, width);
    TestsAreExact(width, width, 2 * columns);
    Unique(width, width, 0, 1);
    FirstThree(OnlyServer(2 * columns, width), NeighborsIndexes(width, width, 2 * columns));
    Unique(width, columns, width, 0);
    InGrid(width, LEFT, columns, 2 * columns);
    BesideFirst(OnlyServer(2 * columns, width), width, columns);
  }

  lemma OneColumn(width: nat)
    requires width >= 2
    ensures PriorityCell(OnlyServer(width + 2, width), width) == width + 1
    ensures DocumentedCell(OnlyServer(width + 2, width), 1) == width - 1
  {
    hide Neighbour, NeighborsIndexes;
    var size := width + 2;
    OnlyServerIs(size, width);
    TestsAreExact(width, width, size);
    Unique(width, width, 0, 1);
    FirstThree(OnlyServer(size, width), NeighborsIndexes(width, width, size));
    Unique(width, 1, 0, width);
    InGrid(width, LEFT, 1, size);
    InGrid(width, RIGHT, 1, size);
    InGrid(width, UP, 1, size);
    BesideFirst(OnlyServer(size, width), width, 1);
  }

  lemma FirstThree(screens: seq<Screen>, indexes: seq<int>)
    requires |indexes| >= 3
    ensures Free(screens, indexes[0]) ==> FirstFreeOf(screens, indexes) == indexes[0]
    ensures !Free(screens, indexes[0]) && Free(screens, indexes[1]) ==> FirstFreeOf(screens, indexes) == indexes[1]
    ensures !Free(screens, indexes[0]) && !Free(screens, indexes[1]) && Free(screens, indexes[2]) ==>
      FirstFreeOf(screens, indexes) == indexes[2]
  {
    var rest := indexes[1..];
    assert rest[0] == indexes[1] && rest[1..][0] == indexes[2];
    assert Free(screens, indexes[2]) ==> FirstFreeOf(screens, rest[1..]) == indexes[2];
  }

  lemma BesideFirst(screens: seq<Screen>, server: nat, columns: nat)
    requires columns > 0
    ensures var l, r, u := Index(Neighbour(server, LEFT, columns, |screens|)),
        Index(Neighbour(server, RIGHT, columns, |screens|)), Index(Neighbour(server, UP, columns, |screens|));
      var c := FirstFreeBeside(screens, server, columns, DIRS);
      && (Free(screens, l) ==> c == l)
      && (!Free(screens, l) && Free(screens, r) ==> c == r)
      && (!Free(screens, l) && !Free(screens, r) && Free(screens, u) ==> c == u)
  {
    hide Neighbour;
    var rest := DIRS[1..];
    assert DIRS[0] == LEFT && rest[0] == RIGHT && rest[1..][0] == UP;
    var u := Index(Neighbour(server, UP, columns, |screens|));
    assert Free(screens, u) ==> FirstFreeBeside(screens, server, columns, rest[1..]) == u;
  }

  /** Four columns and three rows, the server at the start of the second row: with the width of
    * five the screen goes to the end of the first. */
  lemma FourColumns()
    ensures PriorityCell(OnlyServer(12, 4), 5) == 3 && DocumentedCell(OnlyServer(12, 4), 4) == 5
  {
    hide Neighbour, NeighborsIndexes;
    OnlyServerIs(12, 4);
    TestsAreExact(4, 5, 12);
    FirstThree(OnlyServer(12, 4), NeighborsIndexes(4, 5, 12));
    InGrid(4, LEFT, 4, 12);
    InGrid(4, RIGHT, 4, 12);
    BesideFirst(OnlyServer(12, 4), 4, 4);
  }

  lemma {:induction false} OnlyFirstCell(screens: seq<Screen>, indexes: seq<int>)
    requires forall i :: 0 <= i < |indexes| ==> indexes[i] == 0
    ensures FirstFreeOf(screens, indexes) == FirstFree(screens, 0)
  {
    if indexes != [] {
      OnlyFirstCell(screens, indexes[1..]);
    }
  }

  class ScreenList {
    var screens: seq<Screen>
    const width: nat

    constructor (width: nat)
      ensures screens == [] && this.width == width
    {
      screens := [];
      this.width := width;
    }

    method GetServerIndex() returns (serverIndex: int)
      ensures serverIndex == if ServerIndex(screens, 0) < |screens| then ServerIndex(screens, 0) else -1
    {
      serverIndex := -1;
      var i := 0;
      while i < |screens|
        invariant 0 <= i <= |screens| && serverIndex == -1
        invariant ServerIndex(screens, 0) == ServerIndex(screens, i)
      {
        if screens[i].server {
          serverIndex := i;
          break;
        }
        i := i + 1;
      }
    }

    method AddScreenByPriority(newScreen: Screen)
      requires width > 0
      modifies this
      ensures var cell := PriorityCell(old(screens), width);
        screens == if cell < |old(screens)| then old(screens)[cell := newScreen] else old(screens)
    {
      var serverIndex := GetServerIndex();
      var indexes := NeighborsIndexes(serverIndex, width, |screens|);
      var isAdded := false;
      var d := 0;
      while d < |indexes|
        invariant 0 <= d <= |indexes| && !isAdded && screens == old(screens)
        invariant FirstFreeOf(screens, indexes) == FirstFreeOf(screens, indexes[d..])
      {
        var index := indexes[d];
        if index >= 0 && index < |screens| {
          if screens[index].IsNull() {
            screens := screens[index := newScreen];
            isAdded := true;
            break;
          }
        }
        d := d + 1;
      }
      if !isAdded {
        AddScreenToFirstEmpty(newScreen);
      }
    }

    method AddScreenToFirstEmpty(newScreen: Screen)
      modifies this
      ensures var cell := FirstFree(old(screens), 0);
        screens == if cell < |old(screens)| then old(screens)[cell := newScreen] else old(screens)
    {
      var i := 0;
      while i < |screens|
        invariant 0 <= i <= |screens| && screens == old(screens)
        invariant FirstFree(screens, 0) == FirstFree(screens, i)
      {
        if screens[i].IsNull() {
          screens := screens[i := newScreen];
          break;
        }
        i := i + 1;
      }
    }
  }
}
