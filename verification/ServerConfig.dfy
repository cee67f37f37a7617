/** src/gui/src/ServerConfig.cpp: links between adjacent screens, and adding a screen. */
module ServerConfigs {
  import opened Options
  import opened Grid
  import opened ScreenLists

  /** `neighbourDirs`, in its order. */
  const NEIGHBOUR_DIRS := [RIGHT, LEFT, UP, DOWN]

  const SERVER_DEFAULT_INDEX := 7

  function AdjacentScreenIndex(screens: seq<Screen>, columns: nat, idx: nat, d: Dir): int
    requires idx < |screens| && columns > 0
  {
    if screens[idx].IsNull() then -1
    else if (d.dx > 0 && (idx + 1) % columns == 0) || (d.dx < 0 && idx % columns == 0) then -1
    else
      var arrayPos := idx + d.dx + d.dy * columns;
      if arrayPos >= |screens| || arrayPos < 0 then -1 else arrayPos
  }

  /** From an occupied cell the adjacent index is the neighbouring cell of the grid, in a list
    * of any length. */
  lemma AdjacentIsNeighbour(screens: seq<Screen>, columns: nat, idx: nat, d: Dir)
    requires idx < |screens| && columns > 0 && IsUnit(d)
    ensures AdjacentScreenIndex(screens, columns, idx, d) ==
      if screens[idx].IsNull() then -1 else Index(Neighbour(idx, d, columns, |screens|))
  {
    var x, y := Col(idx, columns), Row(idx, columns);
    Split(idx, columns);
    NextColumn(idx, columns);
    RowBounds(idx, columns, |screens|);
    assert (y + d.dy) * columns == y * columns + d.dy * columns;
  }

  // ----------------------------------------------------------------------- links

  /** A line of the links section: in direction `dir` of screen `from` is screen `to`. */
  datatype Link = Link(from: nat, dir: nat, to: nat)

  predicate IsLink(screens: seq<Screen>, columns: nat, l: Link)
    requires columns > 0
  {
    && l.from < |screens| && l.dir < 4 && l.to < |screens|
    && !screens[l.from].IsNull() && !screens[l.to].IsNull()
    && AdjacentScreenIndex(screens, columns, l.from, NEIGHBOUR_DIRS[l.dir]) == l.to
  }

  function OppositeDir(dir: nat): nat
    requires dir < 4
  {
    if dir % 2 == 0 then dir + 1 else dir - 1
  }

  /** The links section is symmetric: every link has its way back. */
  lemma LinksAreSymmetric(screens: seq<Screen>, columns: nat, l: Link)
    requires columns > 0 && IsLink(screens, columns, l)
    ensures IsLink(screens, columns, Link(l.to, OppositeDir(l.dir), l.from))
  {
    var d, back := NEIGHBOUR_DIRS[l.dir], NEIGHBOUR_DIRS[OppositeDir(l.dir)];
    AdjacentIsNeighbour(screens, columns, l.from, d);
    assert back == Opposite(d);
    StepBack(l.from, d, columns, |screens|, l.to);
    AdjacentIsNeighbour(screens, columns, l.to, back);
  }

  /** Each screen is next to at most one other in each direction, and not to itself. */
  lemma LinksAreFunctional(screens: seq<Screen>, columns: nat, l: Link, m: Link)
    requires columns > 0 && IsLink(screens, columns, l) && IsLink(screens, columns, m)
    ensures l.from == m.from && l.dir == m.dir ==> l == m
    ensures l.to == m.to && l.dir == m.dir ==> l == m
    ensures l.from != l.to
  {
    AdjacentIsNeighbour(screens, columns, l.from, NEIGHBOUR_DIRS[l.dir]);
    NeighbourAt(l.from, NEIGHBOUR_DIRS[l.dir], columns, |screens|);
    LinksAreSymmetric(screens, columns, l);
    LinksAreSymmetric(screens, columns, m);
  }

  /** What a link is, in terms of the list: right and left do not leave the row, up and down go a row
    * back and on. */
  lemma LinkIs(screens: seq<Screen>, columns: nat, l: Link)
    requires columns > 0
    ensures IsLink(screens, columns, l) <==>
      && l.from < |screens| && l.to < |screens| && screens[l.from].name != "" && screens[l.to].name != ""
      && (|| (l.dir == 0 && l.to == l.from + 1 && l.to % columns != 0)
          || (l.dir == 1 && l.to == l.from - 1 && l.from % columns != 0)
          || (l.dir == 2 && l.to == l.from - columns)
          || (l.dir == 3 && l.to == l.from + columns))
  {
    if l.dir < 4 {
      assert NEIGHBOUR_DIRS[0] == Dir(1, 0) && NEIGHBOUR_DIRS[1] == Dir(-1, 0);
      assert NEIGHBOUR_DIRS[2] == Dir(0, -1) && NEIGHBOUR_DIRS[3] == Dir(0, 1);
    }
  }

  function Rank(l: Link): nat {
    4 * l.from + l.dir
  }

  /** The links loop of `operator<<`. */
  method WriteLinks(screens: seq<Screen>, columns: nat) returns (links: seq<Link>)
    requires columns > 0
    ensures forall l :: l in links <==> IsLink(screens, columns, l)
    ensures forall i, j :: 0 <= i < j < |links| ==> Rank(links[i]) < Rank(links[j])
  {
    hide AdjacentScreenIndex;
    links := [];
    var i := 0;
    while i < |screens|
      invariant 0 <= i <= |screens|
      invariant forall l :: l in links <==> IsLink(screens, columns, l) && l.from < i
      invariant forall a, b :: 0 <= a < b < |links| ==> Rank(links[a]) < Rank(links[b])
    {
      if !screens[i].IsNull() {
        var j := 0;
        while j < 4
          invariant 0 <= j <= 4
          invariant forall l :: l in links <==> IsLink(screens, columns, l) && Rank(l) < 4 * i + j
          invariant forall a, b :: 0 <= a < b < |links| ==> Rank(links[a]) < Rank(links[b])
        {
          var idx := AdjacentScreenIndex(screens, columns, i, NEIGHBOUR_DIRS[j]);
          AdjacentInList(screens, columns, i, NEIGHBOUR_DIRS[j]);
          if idx != -1 && !screens[idx].IsNull() {
            var link := Link(i, j, idx);
            forall a | 0 <= a < |links| ensures Rank(links[a]) < Rank(link) {
              assert links[a] in links;
            }
            links := links + [link];
          }
          j := j + 1;
        }
      }
      i := i + 1;
    }
  }

  lemma AdjacentInList(screens: seq<Screen>, columns: nat, idx: nat, d: Dir)
    requires idx < |screens| && columns > 0
    ensures -1 <= AdjacentScreenIndex(screens, columns, idx, d) < |screens|
  {
  }

  // --------------------------------------------------------------- adding a screen

  function IndexOf(screens: seq<Screen>, name: string, from: nat): (i: nat)
    requires from <= |screens|
    ensures from <= i <= |screens|
    ensures i < |screens| ==> !screens[i].IsNull() && screens[i].name == name
    ensures forall k :: from <= k < i ==> screens[k].IsNull() || screens[k].name != name
    decreases |screens| - from
  {
    if from < |screens| && (screens[from].IsNull() || screens[from].name != name) then IndexOf(screens, name, from + 1)
    else from
  }

  function Named(screens: seq<Screen>, i: nat, name: string): seq<Screen> {
    if i < |screens| then screens[i := screens[i].(name := name)] else screens
  }

  /** The first free cell in a straight line from cell `i`, if every cell before it is taken. */
  function FreeInLine(screens: seq<Screen>, columns: nat, i: nat, d: Dir): Option<nat>
    requires columns > 0 && i < |screens| && IsUnit(d)
    decreases if d == RIGHT || d == DOWN then |screens| - i else i
  {
    NeighbourAt(i, d, columns, |screens|);
    var n := Neighbour(i, d, columns, |screens|);
    if n.None? then None
    else if screens[n.value].IsNull() then n
    else FreeInLine(screens, columns, n.value, d)
  }

  /** Strictly between `i` and `j` in direction `d`. */
  predicate Between(i: nat, k: nat, j: nat, d: Dir, columns: nat)
    requires columns > 0
  {
    && (if d == RIGHT || d == DOWN then i < k < j else j < k < i)
    && (if d == RIGHT || d == LEFT then Row(k, columns) == Row(i, columns) else Col(k, columns) == Col(i, columns))
  }

  predicate Ahead(i: nat, j: nat, d: Dir, columns: nat)
    requires columns > 0
  {
    if d == RIGHT then i < j && Row(j, columns) == Row(i, columns)
    else if d == LEFT then j < i && Row(j, columns) == Row(i, columns)
    else if d == UP then j < i && Col(j, columns) == Col(i, columns)
    else i < j && Col(j, columns) == Col(i, columns)
  }

  /** The cell found is free, in the row or column of the start and on the right side of it,
    * and no cell in between is free. */
  lemma {:induction false} FreeInLineIsFirst(screens: seq<Screen>, columns: nat, i: nat, d: Dir, k: nat)
    requires columns > 0 && i < |screens| && IsUnit(d)
    ensures var f := FreeInLine(screens, columns, i, d);
      f.Some? ==>
        && f.value < |screens| && screens[f.value].IsNull() && Ahead(i, f.value, d, columns)
        && (Between(i, k, f.value, d, columns) ==> k < |screens| && !screens[k].IsNull())
    decreases if d == RIGHT || d == DOWN then |screens| - i else i
  {
    hide Row, Col, Neighbour;
    NeighbourAt(i, d, columns, |screens|);
    var n := Neighbour(i, d, columns, |screens|);
    if n.Some? {
      NothingBetween(i, k, n.value, d, columns);
      if !screens[n.value].IsNull() {
        FreeInLineIsFirst(screens, columns, n.value, d, k);
      }
    }
  }

  /** Cells of one column are at least a row apart. */
  lemma ColumnApart(i: nat, k: nat, columns: nat)
    requires columns > 0 && i < k && Col(i, columns) == Col(k, columns)
    ensures k >= i + columns
  {
    Split(i, columns);
    Split(k, columns);
    var a, b := Row(i, columns), Row(k, columns);
    if b <= a {
      Multiples(columns, b, a);
    } else {
      Multiples(columns, a + 1, b);
      assert (a + 1) * columns == a * columns + columns;
    }
  }

  /** One step passes over no cell of the line. */
  lemma NothingBetween(i: nat, k: nat, j: nat, d: Dir, columns: nat)
    requires columns > 0 && IsUnit(d) && j == i + d.dx + d.dy * columns
    ensures !Between(i, k, j, d, columns)
  {
    hide Row, Col;
    if (d == UP || d == DOWN) && Col(k, columns) == Col(i, columns) {
      if i < k {
        ColumnApart(i, k, columns);
      } else if k < i {
        ColumnApart(k, i, columns);
      }
    }
  }

  /** When none is found, the whole line to the edge is taken. */
  lemma {:induction false} NoneFreeInLine(screens: seq<Screen>, columns: nat, i: nat, d: Dir, k: nat)
    requires columns > 0 && i < |screens| && IsUnit(d)
    requires FreeInLine(screens, columns, i, d) == None && k < |screens| && Ahead(i, k, d, columns)
    ensures !screens[k].IsNull()
    decreases if d == RIGHT || d == DOWN then |screens| - i else i
  {
    hide Row, Col, Neighbour, FreeInLine;
    FreeInLineStep(screens, columns, i, d);
    NeighbourAt(i, d, columns, |screens|);
    InGrid(i, d, columns, |screens|);
    EdgeOfLine(i, k, d, columns, |screens|);
    var n := Neighbour(i, d, columns, |screens|);
    if n.value != k {
      NothingBetween(i, k, n.value, d, columns);
      NoneFreeInLine(screens, columns, n.value, d, k);
    }
  }

  lemma FreeInLineStep(screens: seq<Screen>, columns: nat, i: nat, d: Dir)
    requires columns > 0 && i < |screens| && IsUnit(d)
    ensures var n := Neighbour(i, d, columns, |screens|);
      n.Some? ==>
        && n.value < |screens|
        && (FreeInLine(screens, columns, i, d) == None ==>
             !screens[n.value].IsNull() && FreeInLine(screens, columns, n.value, d) == None)
  {
    NeighbourAt(i, d, columns, |screens|);
  }

  /** A cell ahead means a step ahead. */
  lemma EdgeOfLine(i: nat, k: nat, d: Dir, columns: nat, size: nat)
    requires columns > 0 && IsUnit(d) && i < size && k < size && Ahead(i, k, d, columns)
    ensures Neighbour(i, d, columns, size).Some?
  {
    InGrid(i, d, columns, size);
    Split(i, columns);
    Split(k, columns);
    if d == UP || d == DOWN {
      if Row(k, columns) < Row(i, columns) {
        Multiples(columns, Row(k, columns), Row(i, columns));
      } else if Row(i, columns) < Row(k, columns) {
        Multiples(columns, Row(i, columns) + 1, Row(k, columns));
        assert (Row(i, columns) + 1) * columns == Row(i, columns) * columns + columns;
      }
    }
  }

  // --------------------------------------------------------- the walk as it is written

  /** How far each turn of the walk goes in the list; up and down are written for five columns. */
  function Offset(d: Dir): int {
    if d == LEFT then -1 else if d == UP then -5 else if d == DOWN then 5 else 1
  }

  /** The walk ends at a free cell, or gives up, or asks for a cell that the list does not have. */
  datatype Walk = Found(idx: nat) | GaveUp | OutOfRange

  function Walked(screens: seq<Screen>, columns: nat, start: int, d: Dir): (w: Walk)
    requires columns > 0
    ensures w.Found? ==> w.idx < |screens| && screens[w.idx].IsNull()
    decreases if Offset(d) > 0 then |screens| - start else start
  {
    if start < 0 || start >= |screens| then OutOfRange
    else
      var idx := AdjacentScreenIndex(screens, columns, start, d);
      if idx == -1 then GaveUp
      else if screens[idx].IsNull() then Found(idx)
      else Walked(screens, columns, start + Offset(d), d)
  }

  /** What the walk should find from an occupied cell. */
  function Sought(free: Option<nat>): Walk {
    if free.Some? then Found(free.value) else GaveUp
  }

  predicate WalksRight(screens: seq<Screen>, columns: nat, i: nat, d: Dir)
    requires columns > 0 && i < |screens| && IsUnit(d)
  {
    Walked(screens, columns, i, d) == Sought(FreeInLine(screens, columns, i, d))
  }

  lemma {:induction false} WalkFollowsLine(screens: seq<Screen>, columns: nat, i: nat, d: Dir)
    requires columns > 0 && i < |screens| && IsUnit(d) && !screens[i].IsNull()
    requires d.dy == 0 || columns == 5
    ensures WalksRight(screens, columns, i, d)
    decreases if d == RIGHT || d == DOWN then |screens| - i else i
  {
    hide AdjacentScreenIndex, Neighbour;
    AdjacentIsNeighbour(screens, columns, i, d);
    NeighbourAt(i, d, columns, |screens|);
    var n := Neighbour(i, d, columns, |screens|);
    if n.Some? && !screens[n.value].IsNull() {
      WalkFollowsLine(screens, columns, n.value, d);
    }
  }

  const SOME_NAME := Screen("a", false)
  const NO_NAME := Screen("", false)

  /** Three cells of one column, two of them taken and the third, ahead, free. */
  function ColumnOfThree(columns: nat, server: nat): (screens: seq<Screen>)
    ensures |screens| == 2 * columns + 1
    ensures forall i :: 0 <= i < |screens| ==> screens[i] == if i == server || i == columns then SOME_NAME else NO_NAME
  {
    seq(2 * columns + 1, i => if i == server || i == columns then SOME_NAME else NO_NAME)
  }

  /** With any other number of columns, the second turn of the walk starts at the wrong cell: it
    * finds that free and gives up, or it is outside the list. */
  lemma WalkGoesAstray(columns: nat, d: Dir)
    requires columns > 0 && columns != 5 && (d == UP || d == DOWN)
    ensures var server := if d == UP then 2 * columns else 0;
      var screens := ColumnOfThree(columns, server);
      && !screens[server].IsNull()
      && FreeInLine(screens, columns, server, d) == Some(2 * columns - server)
      && Walked(screens, columns, server, d) == if columns <= 2 then OutOfRange else GaveUp
  {
    hide Neighbour;
    var server := if d == UP then 2 * columns else 0;
    var screens := ColumnOfThree(columns, server);
    Unique(0, columns, 0, 0);
    assert 1 * columns == columns;
    Unique(columns, columns, 0, 1);
    Unique(2 * columns, columns, 0, 2);
    InGrid(server, d, columns, |screens|);
    InGrid(columns, d, columns, |screens|);
    AdjacentIsNeighbour(screens, columns, server, d);
  }

  /** In every list, from every occupied cell. */
  ghost predicate AlwaysRight(columns: nat, d: Dir)
    requires columns > 0 && IsUnit(d)
  {
    forall screens: seq<Screen>, i ::
      0 <= i < |screens| && !screens[i].IsNull() ==> WalksRight(screens, columns, i, d)
  }

  /** The walk finds what it should in every list if and only if it goes sideways or there are
    * five columns. */
  lemma WalkIsRightIff(columns: nat, d: Dir)
    requires columns > 0 && IsUnit(d)
    ensures AlwaysRight(columns, d) <==> d.dy == 0 || columns == 5
  {
    hide WalksRight;
    if d.dy == 0 || columns == 5 {
      forall screens: seq<Screen>, i | 0 <= i < |screens| && !screens[i].IsNull()
        ensures WalksRight(screens, columns, i, d)
      {
        WalkFollowsLine(screens, columns, i, d);
      }
    } else {
      AstrayIsWrong(columns, d);
    }
  }

  lemma AstrayIsWrong(columns: nat, d: Dir)
    requires columns > 0 && columns != 5 && (d == UP || d == DOWN)
    ensures !AlwaysRight(columns, d)
  {
    hide Walked, FreeInLine, ColumnOfThree;
    WalkGoesAstray(columns, d);
    var server := if d == UP then 2 * columns else 0;
    var screens := ColumnOfThree(columns, server);
    assert !WalksRight(screens, columns, server, d);
  }

  /** The first free cell in each direction, or none: to the right and left in the row, up and down in
    * the column, and whatever is nearer is taken. */
  lemma LineOutcomes(screens: seq<Screen>, columns: nat, i: nat, k: nat)
    requires columns > 0 && i < |screens| && k < |screens|
    ensures var f := FreeInLine(screens, columns, i, Dir(1, 0));
      var j := if f.Some? then f.value else |screens|;
      && (f.Some? ==> i < j < |screens| && j / columns == i / columns && screens[j].name == "")
      && (i < k < j && k / columns == i / columns ==> screens[k].name != "")
    ensures var f := FreeInLine(screens, columns, i, Dir(-1, 0));
      var j: int := if f.Some? then f.value else -1;
      && (f.Some? ==> j < i && j / columns == i / columns && screens[j].name == "")
      && (j < k < i && k / columns == i / columns ==> screens[k].name != "")
    ensures var f := FreeInLine(screens, columns, i, Dir(0, -1));
      var j: int := if f.Some? then f.value else -1;
      && (f.Some? ==> j < i && j % columns == i % columns && screens[j].name == "")
      && (j < k < i && k % columns == i % columns ==> screens[k].name != "")
    ensures var f := FreeInLine(screens, columns, i, Dir(0, 1));
      var j := if f.Some? then f.value else |screens|;
      && (f.Some? ==> i < j < |screens| && j % columns == i % columns && screens[j].name == "")
      && (i < k < j && k % columns == i % columns ==> screens[k].name != "")
  {
    hide FreeInLine;
    LineOutcome(screens, columns, i, RIGHT, k);
    LineOutcome(screens, columns, i, LEFT, k);
    LineOutcome(screens, columns, i, UP, k);
    LineOutcome(screens, columns, i, DOWN, k);
  }

  lemma LineOutcome(screens: seq<Screen>, columns: nat, i: nat, d: Dir, k: nat)
    requires columns > 0 && i < |screens| && IsUnit(d) && k < |screens|
    ensures var f := FreeInLine(screens, columns, i, d);
      && (f.Some? ==> f.value < |screens| && screens[f.value].IsNull() && Ahead(i, f.value, d, columns))
      && (f.Some? && Between(i, k, f.value, d, columns) ==> !screens[k].IsNull())
      && (f.None? && Ahead(i, k, d, columns) ==> !screens[k].IsNull())
  {
    hide FreeInLine, Ahead, Between;
    FreeInLineIsFirst(screens, columns, i, d, k);
    if FreeInLine(screens, columns, i, d).None? && Ahead(i, k, d, columns) {
      NoneFreeInLine(screens, columns, i, d, k);
    }
  }

  /** What the user answers in the dialog, and what comes of it. */
  datatype Answer = Ignore | ToRight | ToLeft | ToTop | ToBottom | Other

  datatype Added = AddedOk | Ignored | ManualServer | ManualClient | OutsideList

  function DirOf(answer: Answer): Dir {
    match answer case ToLeft => LEFT case ToTop => UP case ToBottom => DOWN case _ => RIGHT
  }

  /** The grid with a server, and its cell: named in it already, or put into its default cell
    * if that is free. */
  function WithServer(screens: seq<Screen>, server: string): (r: Option<(seq<Screen>, nat)>)
    ensures r.Some? ==> r.value.1 < |r.value.0| == |screens|
  {
    if IndexOf(screens, server, 0) < |screens| then Some((screens, IndexOf(screens, server, 0)))
    else if SERVER_DEFAULT_INDEX < |screens| && screens[SERVER_DEFAULT_INDEX].IsNull() then
      Some((screens[SERVER_DEFAULT_INDEX := Screen(server, true)], SERVER_DEFAULT_INDEX))
    else None
  }

  /** Where a new screen goes in the direction asked for, if there is room. */
  function Room(screens: seq<Screen>, columns: nat, server: nat, answer: Answer): Walk
    requires columns > 0 && server < |screens|
  {
    if answer == Other || screens[server].IsNull() then GaveUp
    else Sought(FreeInLine(screens, columns, server, DirOf(answer)))
  }

  /** The outcome of `autoAddScreen` once the server's cell is known. */
  predicate AddedBy(s: seq<Screen>, name: string, w: Walk, r: Added, s': seq<Screen>) {
    match w
    case Found(i) => r == AddedOk && s' == Named(s, i, name)
    case GaveUp => r == ManualClient && s' == Named(s, FirstFree(s, 0), name)
    case OutOfRange => r == OutsideList && s' == s
  }

  /** The directions asked for, the cell of a server that is not named, and what becomes of a name. */
  lemma AnswersMean(screens: seq<Screen>, server: string, i: nat, name: string)
    ensures DirOf(ToRight) == Dir(1, 0) && DirOf(ToLeft) == Dir(-1, 0)
    ensures DirOf(ToTop) == Dir(0, -1) && DirOf(ToBottom) == Dir(0, 1)
    ensures RIGHT == Dir(1, 0) && LEFT == Dir(-1, 0) && UP == Dir(0, -1) && DOWN == Dir(0, 1)
    ensures var at := IndexOf(screens, server, 0);
      WithServer(screens, server) ==
        if at < |screens| then Some((screens, at))
        else if 7 < |screens| && screens[7].name == "" then Some((screens[7 := Screen(server, true)], 7))
        else None
    ensures Named(screens, i, name) ==
      if i < |screens| then screens[i := Screen(name, screens[i].server)] else screens
  {
  }

  /** The outcome for each answer, with the cell the walk has found in that direction. */
  lemma AnswerOutcomes(s: seq<Screen>, columns: nat, server: nat, name: string, w: Walk, r: Added, s': seq<Screen>)
    requires columns > 0 && server < |s|
    ensures AddedBy(s, name, w, r, s') <==>
      && (w.Found? ==> r == AddedOk && s' == Named(s, w.idx, name))
      && (w == GaveUp ==> r == ManualClient && s' == Named(s, FirstFree(s, 0), name))
      && (w == OutOfRange ==> r == OutsideList && s' == s)
    ensures s[server].name != "" ==>
      && Room(s, columns, server, ToRight) == Sought(FreeInLine(s, columns, server, Dir(1, 0)))
      && Room(s, columns, server, ToLeft) == Sought(FreeInLine(s, columns, server, Dir(-1, 0)))
      && Room(s, columns, server, ToTop) == Sought(FreeInLine(s, columns, server, Dir(0, -1)))
      && Room(s, columns, server, ToBottom) == Sought(FreeInLine(s, columns, server, Dir(0, 1)))
    ensures Room(s, columns, server, Other) == GaveUp
    ensures Sought(None) == GaveUp && forall i :: Sought(Some(i)) == Found(i)
  {
  }

  class ServerConfig {
    const list: ScreenList
    const numColumns: nat
    const screenName: string

    constructor (list: ScreenList, numColumns: nat, screenName: string)
      ensures this.list == list && this.numColumns == numColumns && this.screenName == screenName
    {
      this.list, this.numColumns, this.screenName := list, numColumns, screenName;
    }

    method FindScreenName(name: string) returns (found: bool, index: nat)
      ensures found <==> IndexOf(list.screens, name, 0) < |list.screens|
      ensures found ==> index == IndexOf(list.screens, name, 0)
    {
      found, index := false, 0;
      var i := 0;
      while i < |list.screens|
        invariant 0 <= i <= |list.screens| && !found
        invariant IndexOf(list.screens, name, 0) == IndexOf(list.screens, name, i)
      {
        if !list.screens[i].IsNull() && list.screens[i].name == name {
          index := i;
          found := true;
          break;
        }
        i := i + 1;
      }
    }

    method FixNoServer(name: string) returns (fixed: bool)
      requires SERVER_DEFAULT_INDEX < |list.screens|
      modifies list
      ensures fixed == old(list.screens[SERVER_DEFAULT_INDEX].IsNull())
      ensures list.screens ==
        if fixed then old(list.screens)[SERVER_DEFAULT_INDEX := Screen(name, true)] else old(list.screens)
    {
      fixed := false;
      if list.screens[SERVER_DEFAULT_INDEX].IsNull() {
        list.screens := list.screens[SERVER_DEFAULT_INDEX := list.screens[SERVER_DEFAULT_INDEX].(name := name)];
        list.screens := list.screens[SERVER_DEFAULT_INDEX := list.screens[SERVER_DEFAULT_INDEX].(server := true)];
        fixed := true;
      }
    }

    method AddToFirstEmptyGrid(name: string)
      modifies list
      ensures list.screens == Named(old(list.screens), FirstFree(old(list.screens), 0), name)
    {
      var i := 0;
      while i < |list.screens|
        invariant 0 <= i <= |list.screens| && list.screens == old(list.screens)
        invariant FirstFree(list.screens, 0) == FirstFree(list.screens, i)
      {
        if list.screens[i].IsNull() {
          list.screens := list.screens[i := list.screens[i].(name := name)];
          break;
        }
        i := i + 1;
      }
    }

    /** The walk of `autoAddScreen` from the server. */
    method WalkToFree(serverIndex: nat, d: Dir) returns (w: Walk)
      requires serverIndex < |list.screens| && numColumns > 0 && IsUnit(d)
      ensures w == Walked(list.screens, numColumns, serverIndex, d)
      ensures (d.dy == 0 || numColumns == 5) && !list.screens[serverIndex].IsNull() ==>
        w == Sought(FreeInLine(list.screens, numColumns, serverIndex, d))
    {
      if (d.dy == 0 || numColumns == 5) && !list.screens[serverIndex].IsNull() {
        WalkFollowsLine(list.screens, numColumns, serverIndex, d);
      }
      var startIndex: int := serverIndex;
      var offset := Offset(d);
      var idx := AdjacentScreenIndex(list.screens, numColumns, startIndex, d);
      while idx != -1
        invariant 0 <= startIndex < |list.screens|
        invariant idx == AdjacentScreenIndex(list.screens, numColumns, startIndex, d)
        invariant Walked(list.screens, numColumns, startIndex, d) == Walked(list.screens, numColumns, serverIndex, d)
        decreases if offset > 0 then |list.screens| - startIndex else startIndex
      {
        if list.screens[idx].IsNull() {
          return Found(idx);
        }
        startIndex := startIndex + offset;
        if startIndex < 0 || startIndex >= |list.screens| {
          return OutOfRange;
        }
        idx := AdjacentScreenIndex(list.screens, numColumns, startIndex, d);
      }
      return GaveUp;
    }

    /** `OutsideList` is where the source reads a cell that the list does not have, which cannot
      * happen sideways or with five columns. */
    method AutoAddScreen(name: string, answer: Answer) returns (r: Added)
      requires numColumns > 0
      requires IndexOf(list.screens, screenName, 0) == |list.screens| ==> SERVER_DEFAULT_INDEX < |list.screens|
      modifies list
      ensures match WithServer(old(list.screens), screenName)
        case None => r == ManualServer && list.screens == old(list.screens)
        case Some((s, server)) =>
          if IndexOf(s, name, 0) < |s| || answer == Ignore then r == Ignored && list.screens == s
          else if answer == Other then r == ManualClient && list.screens == Named(s, FirstFree(s, 0), name)
          else if DirOf(answer).dy == 0 || numColumns == 5 then
            AddedBy(s, name, Room(s, numColumns, server, answer), r, list.screens)
          else AddedBy(s, name, Walked(s, numColumns, server, DirOf(answer)), r, list.screens)
    {
      var named, serverIndex := FindScreenName(screenName);
      if !named {
        var fixed := FixNoServer(screenName);
        if !fixed {
          return ManualServer;
        }
        serverIndex := SERVER_DEFAULT_INDEX;
      }
      var target, _ := FindScreenName(name);
      if target || answer == Ignore {
        return Ignored;
      }
      if answer == Other {
        AddToFirstEmptyGrid(name);
        return ManualClient;
      }
      var w := WalkToFree(serverIndex, DirOf(answer));
      match w
      case Found(idx) =>
        list.screens := list.screens[idx := list.screens[idx].(name := name)];
        return AddedOk;
      case GaveUp =>
        AddToFirstEmptyGrid(name);
        return ManualClient;
      case OutOfRange =>
        return OutsideList;
    }

    /** Adding a client without asking: the server is marked first. The client goes where the
      * width of the list puts it, which is beside the server in the grid of `numColumns` if the
      * two are the same. */
    method AddClient(name: string)
      requires IndexOf(list.screens, screenName, 0) == |list.screens| ==> SERVER_DEFAULT_INDEX < |list.screens|
      requires list.width > 0
      modifies list
      ensures var was := old(list.screens);
        var server := IndexOf(was, screenName, 0);
        var s := if server < |was| then was[server := Screen(was[server].name, true)]
                 else if was[7].name == "" then was[7 := Screen(screenName, true)]
                 else was;
        var cell := PriorityCell(s, list.width);
        && list.screens == (if cell < |s| then s[cell := Screen(name, false)] else s)
        && (numColumns == list.width && |s| % numColumns == 0 ==>
             list.screens == Placed(s, DocumentedCell(s, numColumns), Screen(name, false)))
    {
      var named, serverIndex := FindScreenName(screenName);
      if named {
        list.screens := list.screens[serverIndex := list.screens[serverIndex].(server := true)];
      } else {
        var _ := FixNoServer(screenName);
      }
      if numColumns == list.width && |list.screens| % numColumns == 0 {
        SameWidth(list.screens, numColumns);
      }
      list.AddScreenByPriority(Screen(name, false));
    }
  }

  /** In a grid of four columns, a list of width five puts a client at the end of the row above the
    * server, where no link joins the two. */
  lemma NotLinkedToServer(name: string)
    ensures var s := OnlyServer(12, 4);
      && PriorityCell(s, 5) == 3
      && forall dir :: 0 <= dir < 4 ==>
        var after := Placed(s, 3, Screen(name, false));
        !IsLink(after, 4, Link(4, dir, 3)) && !IsLink(after, 4, Link(3, dir, 4))
  {
    FourColumns();
  }
}
