/**
  * A grid of cells kept row by row in a flat list: the arithmetic shared by
  * src/gui/src/ScreenList.cpp and src/gui/src/ServerConfig.cpp, and what it means
  * in columns and rows.
  */
module Grid {
  import opened Options

  function Col(i: nat, width: nat): nat
    requires width > 0
  {
    i % width
  }

  function Row(i: nat, width: nat): nat
    requires width > 0
  {
    i / width
  }

  /** A step by columns and rows. */
  datatype Dir = Dir(dx: int, dy: int)

  const RIGHT := Dir(1, 0)
  const LEFT := Dir(-1, 0)
  const UP := Dir(0, -1)
  const DOWN := Dir(0, 1)

  predicate IsUnit(d: Dir) {
    d == RIGHT || d == LEFT || d == UP || d == DOWN
  }

  function Opposite(d: Dir): Dir {
    Dir(-d.dx, -d.dy)
  }

  /** The cell one step away from cell `i`, if there is one: no step leaves a row sideways. */
  function Neighbour(i: nat, d: Dir, width: nat, size: nat): Option<nat>
    requires width > 0
  {
    var x, y := Col(i, width) + d.dx, Row(i, width) + d.dy;
    if 0 <= x < width && 0 <= y && y * width + x < size then Some(y * width + x) else None
  }

  lemma Unique(i: nat, width: nat, x: nat, y: nat)
    requires x < width && i == y * width + x
    ensures Col(i, width) == x && Row(i, width) == y
  {
    var r, q := Col(i, width), Row(i, width);
    assert i == q * width + r;
    if q < y {
      Multiples(width, q + 1, y);
    } else if q > y {
      Multiples(width, y + 1, q);
    }
  }

  lemma Multiples(width: nat, a: nat, b: nat)
    requires a <= b
    ensures a * width <= b * width
  {
  }

  lemma Split(i: nat, width: nat)
    requires width > 0
    ensures i == Row(i, width) * width + Col(i, width)
  {
  }

  /** Where a step leads in the flat list. */
  lemma NeighbourAt(i: nat, d: Dir, width: nat, size: nat)
    requires width > 0
    ensures var n := Neighbour(i, d, width, size);
      n.Some? ==>
        && n.value < size && n.value == i + d.dx + d.dy * width
        && Col(n.value, width) == Col(i, width) + d.dx && Row(n.value, width) == Row(i, width) + d.dy
  {
    Split(i, width);
    var x, y := Col(i, width) + d.dx, Row(i, width) + d.dy;
    if 0 <= x < width && 0 <= y && y * width + x < size {
      Unique(y * width + x, width, x, y);
      assert (Row(i, width) + d.dy) * width == Row(i, width) * width + d.dy * width;
    }
  }

  /** A step and the opposite step undo each other. */
  lemma StepBack(i: nat, d: Dir, width: nat, size: nat, j: nat)
    requires width > 0 && i < size && Neighbour(i, d, width, size) == Some(j)
    ensures Neighbour(j, Opposite(d), width, size) == Some(i)
  {
    NeighbourAt(i, d, width, size);
    Split(i, width);
  }

  // ------------------------------------------------------------- the code's tests

  /** The remainder of C++, which has the sign of the dividend. */
  function Rem(a: int, b: int): int
    requires b > 0
  {
    if a >= 0 then a % b else -(-a % b)
  }

  lemma NextColumn(i: nat, width: nat)
    requires width > 0
    ensures (i + 1) % width == 0 <==> Col(i, width) == width - 1
  {
    var x, y := Col(i, width), Row(i, width);
    Split(i, width);
    if x == width - 1 {
      assert (y + 1) * width == y * width + width;
      Unique(i + 1, width, 0, y + 1);
    } else {
      Unique(i + 1, width, x + 1, y);
    }
  }

  /** The test for a cell on the left holds even for cell 0, where the remainder is -1. */
  lemma PreviousColumn(i: nat, width: nat)
    requires width > 0
    ensures i > 0 ==> (Rem(i - 1, width) != width - 1 <==> Col(i, width) > 0)
    ensures i == 0 ==> Col(i, width) == 0 && (if Rem(i - 1, width) != width - 1 then i - 1 else -1) == -1
  {
    if i > 0 {
      var x, y := Col(i, width), Row(i, width);
      Split(i, width);
      if x > 0 {
        Unique(i - 1, width, x - 1, y);
      } else {
        assert y > 0;
        assert (y - 1) * width == y * width - width;
        Unique(i - 1, width, width - 1, y - 1);
      }
    } else {
      Unique(0, width, 0, 0);
    }
  }

  /** In a list of full rows, a cell has one below it exactly when another row follows. */
  lemma RowBounds(i: nat, width: nat, size: nat)
    requires width > 0 && i < size
    ensures i - width >= 0 <==> Row(i, width) > 0
    ensures size % width == 0 ==> (i + width < size <==> Row(i, width) + 1 < size / width)
    ensures size % width == 0 ==> Row(i, width) < size / width
  {
    var x, y := Col(i, width), Row(i, width);
    Split(i, width);
    if y > 0 {
      Multiples(width, 1, y);
    }
    if size % width == 0 {
      var rows := size / width;
      assert size == rows * width;
      if y + 1 < rows {
        Multiples(width, y + 2, rows);
        assert (y + 2) * width == y * width + 2 * width;
      } else {
        Multiples(width, rows, y + 1);
        assert (y + 1) * width == y * width + width;
      }
      if y >= rows {
        Multiples(width, rows, y);
      }
    }
  }
}
