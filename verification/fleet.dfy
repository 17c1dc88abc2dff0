/**
 The alien fleet: its grid layout (`_create_fleet`, `_create_alien`) and
 its reaction to reaching a screen edge (`_check_fleet_edges`,
 `_change_fleet_direction`).
 */
module Fleet {
  import opened Geometry
  import opened Game

  /* ---------------------------------------------------------------
     Layout
     --------------------------------------------------------------- */

  /** Horizontal space left for aliens once a margin of one alien width
      is kept on both sides. */
  function AvailableX(s: Settings): int {
    s.screenWidth - 2 * s.alienWidth
  }

  /** Vertical space left for rows once four alien heights and the ship
      are kept free. */
  function AvailableY(s: Settings): int {
    s.screenHeight - 4 * s.alienHeight - s.shipHeight
  }

  /** Floor division of a non-negative numerator by a positive divisor:
      the quotient is the largest count of whole divisors that fit. */
  lemma DivBounds(a: int, b: int)
    requires a >= 0 && b > 0
    ensures 0 <= a / b
    ensures b * (a / b) <= a < b * (a / b) + b
  {
    assert a == b * (a / b) + a % b;
  }

  /** Aliens per row: the available width floor-divided by two alien
      widths (an alien plus one alien of spacing); a negative quotient
      makes the column loop run zero times. */
  function Cols(s: Settings): nat
    requires s.WellFormed()
  {
    if AvailableX(s) < 0 then 0
    else
      DivBounds(AvailableX(s), 2 * s.alienWidth);
      AvailableX(s) / (2 * s.alienWidth)
  }

  /** Number of rows: the available height floor-divided by 1.7 alien
      heights, computed exactly in integers as (10 * space) / (17 * h);
      a negative quotient makes the row loop run zero times. */
  function Rows(s: Settings): nat
    requires s.WellFormed()
  {
    if AvailableY(s) < 0 then 0
    else
      DivBounds(10 * AvailableY(s), 17 * s.alienHeight);
      (10 * AvailableY(s)) / (17 * s.alienHeight)
  }

  /** The column count is the largest number of two-alien-wide slots that
      fit in the available width, and zero when there is no such width. */
  lemma ColsFit(s: Settings)
    requires s.WellFormed()
    ensures AvailableX(s) < 0 ==> Cols(s) == 0
    ensures AvailableX(s) >= 0 ==>
      2 * s.alienWidth * Cols(s) <= AvailableX(s) < 2 * s.alienWidth * Cols(s) + 2 * s.alienWidth
  {
    if AvailableX(s) >= 0 {
      DivBounds(AvailableX(s), 2 * s.alienWidth);
    }
  }

  /** The row count is the largest number of rows 1.7 alien heights tall
      that fit in the available height, and zero when there is no such
      height. */
  lemma RowsFit(s: Settings)
    requires s.WellFormed()
    ensures AvailableY(s) < 0 ==> Rows(s) == 0
    ensures AvailableY(s) >= 0 ==>
      17 * s.alienHeight * Rows(s) <= 10 * AvailableY(s) < 17 * s.alienHeight * Rows(s) + 17 * s.alienHeight
  {
    if AvailableY(s) >= 0 {
      DivBounds(10 * AvailableY(s), 17 * s.alienHeight);
    }
  }

  /** The alien `_create_alien` places in column `col` of row `row`. */
  function AlienAt(s: Settings, col: nat, row: nat): Rect {
    Rect(s.alienWidth + 2 * s.alienWidth * col, s.rowY(row), s.alienWidth, s.alienHeight)
  }

  /** The first `n` aliens of row `row`, left to right. */
  function RowPrefix(s: Settings, row: nat, n: nat): seq<Rect>
    decreases n
  {
    if n == 0 then [] else RowPrefix(s, row, n - 1) + [AlienAt(s, n - 1, row)]
  }

  /** The first `rows` full rows of the fleet, top row first. */
  function Grid(s: Settings, rows: nat): seq<Rect>
    requires s.WellFormed()
  {
    if rows == 0 then [] else Grid(s, rows - 1) + RowPrefix(s, rows - 1, Cols(s))
  }

  /** The fleet `_create_fleet` adds, in the order it adds it. */
  function NewFleet(s: Settings): (r: seq<Rect>)
    requires s.WellFormed()
    ensures r == [] <==> Rows(s) == 0 || Cols(s) == 0
  {
    GridContents(s, Rows(s));
    Grid(s, Rows(s))
  }

  /** Row `row` of the fleet holds, left to right, the aliens of its first
      `n` columns. */
  lemma {:induction false} RowPrefixContents(s: Settings, row: nat, n: nat)
    ensures |RowPrefix(s, row, n)| == n
    ensures forall c :: 0 <= c < n ==> RowPrefix(s, row, n)[c] == AlienAt(s, c, row)
  {
    if n > 0 {
      RowPrefixContents(s, row, n - 1);
    }
  }

  /** An alien is in the first `rows` rows exactly when it is the alien of
      one of their cells; there are `rows * Cols` of them. */
  lemma {:induction false} GridContents(s: Settings, rows: nat)
    requires s.WellFormed()
    ensures |Grid(s, rows)| == rows * Cols(s)
    ensures forall a :: a in Grid(s, rows) <==>
      exists r, c :: 0 <= r < rows && 0 <= c < Cols(s) && a == AlienAt(s, c, r)
  {
    if rows > 0 {
      var cols := Cols(s);
      GridContents(s, rows - 1);
      RowPrefixContents(s, rows - 1, cols);
      assert |Grid(s, rows)| == (rows - 1) * cols + cols;
      forall a | a in Grid(s, rows)
        ensures exists r, c :: 0 <= r < rows && 0 <= c < cols && a == AlienAt(s, c, r)
      {
        if a !in Grid(s, rows - 1) {
          var row := RowPrefix(s, rows - 1, cols);
          var c :| 0 <= c < |row| && row[c] == a;
          assert a == AlienAt(s, c, rows - 1);
        }
      }
      forall a, r, c | 0 <= r < rows && 0 <= c < cols && a == AlienAt(s, c, r)
        ensures a in Grid(s, rows)
      {
        if r == rows - 1 {
          assert RowPrefix(s, rows - 1, cols)[c] == a;
        }
      }
    }
  }

  /** The new fleet is a grid of Rows by Cols aliens of the alien's own size:
      each sits in some column `c` at x = w + 2w * c and in some row `r` at
      that row's placement, and every cell of the grid is occupied. */
  lemma FleetLayout(s: Settings)
    requires s.WellFormed()
    ensures |NewFleet(s)| == Rows(s) * Cols(s)
    ensures forall a :: a in NewFleet(s) <==>
      exists r, c :: 0 <= r < Rows(s) && 0 <= c < Cols(s) && a == AlienAt(s, c, r)
  {
    GridContents(s, Rows(s));
  }

  /** The new fleet is in row-major order: the alien of cell (r, c) is at
      position r * Cols + c, so rows come top row first and each row left
      to right, whatever the row placements are. */
  lemma FleetOrder(s: Settings, r: nat, c: nat)
    requires s.WellFormed()
    requires r < Rows(s) && c < Cols(s)
    ensures r * Cols(s) + c < |NewFleet(s)|
    ensures NewFleet(s)[r * Cols(s) + c] == AlienAt(s, c, r)
  {
    GridCell(s, Rows(s), r, c);
  }

  /** The first `rows` rows hold `rows * Cols` aliens. */
  lemma {:induction false} GridLength(s: Settings, rows: nat)
    requires s.WellFormed()
    ensures |Grid(s, rows)| == rows * Cols(s)
  {
    if rows > 0 {
      GridLength(s, rows - 1);
      RowPrefixContents(s, rows - 1, Cols(s));
      assert (rows - 1) * Cols(s) + Cols(s) == rows * Cols(s);
    }
  }

  /** In the first `rows` rows, the alien of cell (r, c) sits at position
      r * Cols + c. */
  lemma {:induction false} GridCell(s: Settings, rows: nat, r: nat, c: nat)
    requires s.WellFormed()
    requires r < rows && c < Cols(s)
    ensures r * Cols(s) + c < |Grid(s, rows)|
    ensures Grid(s, rows)[r * Cols(s) + c] == AlienAt(s, c, r)
  {
    if r < rows - 1 {
      GridCell(s, rows - 1, r, c);
      GridKeepsPrefix(s, rows, r * Cols(s) + c);
    } else {
      GridLastRow(s, rows, c);
    }
  }

  /** Adding a row keeps every alien of the earlier rows in place. */
  lemma GridKeepsPrefix(s: Settings, rows: nat, i: nat)
    requires s.WellFormed()
    requires 0 < rows && i < |Grid(s, rows - 1)|
    ensures i < |Grid(s, rows)| && Grid(s, rows)[i] == Grid(s, rows - 1)[i]
  {
    assert Grid(s, rows) == Grid(s, rows - 1) + RowPrefix(s, rows - 1, Cols(s));
  }

  /** The last of the first `rows` rows starts at position (rows - 1) * Cols. */
  lemma GridLastRow(s: Settings, rows: nat, c: nat)
    requires s.WellFormed()
    requires 0 < rows && c < Cols(s)
    ensures (rows - 1) * Cols(s) + c < |Grid(s, rows)|
    ensures Grid(s, rows)[(rows - 1) * Cols(s) + c] == AlienAt(s, c, rows - 1)
  {
    var prev, row := Grid(s, rows - 1), RowPrefix(s, rows - 1, Cols(s));
    assert Grid(s, rows) == prev + row;
    GridLength(s, rows - 1);
    RowPrefixContents(s, rows - 1, Cols(s));
    assert (prev + row)[|prev| + c] == row[c];
  }

  lemma MulStrict(a: nat, b: nat, k: nat)
    requires a < b
    ensures a * k + k <= b * k
  {
    assert (b - a) * k >= k by {
      assert b - a >= 1;
    }
  }

  /** Every alien of a new fleet keeps a margin of one alien width on the
      left and of two on the right, so the fleet starts inside the screen. */
  lemma FleetInsideScreen(s: Settings)
    requires s.WellFormed()
    ensures forall a :: a in NewFleet(s) ==>
      s.alienWidth <= a.x && a.Right() <= s.screenWidth - 2 * s.alienWidth
  {
    FleetLayout(s);
    ColsFit(s);
    forall a | a in NewFleet(s)
      ensures s.alienWidth <= a.x && a.Right() <= s.screenWidth - 2 * s.alienWidth
    {
      var r, c :| 0 <= r < Rows(s) && 0 <= c < Cols(s) && a == AlienAt(s, c, r);
      MulStrict(c, Cols(s), 2 * s.alienWidth);
      assert 2 * s.alienWidth * c == c * (2 * s.alienWidth);
      assert 2 * s.alienWidth * Cols(s) == Cols(s) * (2 * s.alienWidth);
    }
  }

  /** `_create_alien` spaces the aliens of a row one alien width apart:
      the next column starts one alien width right of this alien's right
      edge, and aliens of different columns never overlap. */
  lemma AlienSpacing(s: Settings, row: nat, c: nat, d: nat)
    requires s.WellFormed()
    ensures AlienAt(s, c + 1, row).x == AlienAt(s, c, row).Right() + s.alienWidth
    ensures c != d ==> !Overlaps(AlienAt(s, c, row), AlienAt(s, d, row))
  {
    var k := 2 * s.alienWidth;
    assert k * (c + 1) == k * c + k;
    if c < d {
      MulStrict(c, d, k);
      assert k * c == c * k && k * d == d * k;
    } else if d < c {
      MulStrict(d, c, k);
      assert k * c == c * k && k * d == d * k;
    }
  }

  /** The example layout: an 800x600 screen with 40x40 aliens and a ship
      60 high leaves 720 pixels for 9 columns and 380 pixels for 5 rows
      (380 / 68 = 5.6), 45 aliens in all. */
  lemma ExampleLayout(rowY: nat -> int)
    ensures var s := Settings(800, 600, 40, 40, 60, 3, 10, 3, rowY);
      && AvailableX(s) == 720 && Cols(s) == 9
      && AvailableY(s) == 380 && Rows(s) == 5
      && |NewFleet(s)| == 45
  {
    var s := Settings(800, 600, 40, 40, 60, 3, 10, 3, rowY);
    FleetLayout(s);
  }

  /** `_create_fleet` as written: two nested counting loops, each
      iteration appending the alien of the current column and row. */
  method BuildFleet(s: Settings) returns (fleet: seq<Rect>)
    requires s.WellFormed()
    ensures fleet == NewFleet(s)
  {
    var rows, cols := Rows(s), Cols(s);
    fleet := [];
    var row := 0;
    while row < rows
      invariant 0 <= row <= rows
      invariant fleet == Grid(s, row)
    {
      var col := 0;
      while col < cols
        invariant 0 <= col <= cols
        invariant fleet == Grid(s, row) + RowPrefix(s, row, col)
      {
        fleet := fleet + [AlienAt(s, col, row)];
        col := col + 1;
      }
      row := row + 1;
    }
  }

  /* ---------------------------------------------------------------
     Edge reaction
     --------------------------------------------------------------- */

  /** Every alien moved down by `d`, all else kept. */
  function Drop(aliens: seq<Rect>, d: int): (r: seq<Rect>)
    ensures |r| == |aliens|
    ensures forall i :: 0 <= i < |r| ==>
      && r[i].x == aliens[i].x && r[i].y == aliens[i].y + d
      && r[i].w == aliens[i].w && r[i].h == aliens[i].h
  {
    seq(|aliens|, i requires 0 <= i < |aliens| => aliens[i].(y := aliens[i].y + d))
  }

  /** Two drops are one drop by their sum. */
  lemma DropDrop(aliens: seq<Rect>, d: int, e: int)
    ensures Drop(Drop(aliens, d), e) == Drop(aliens, d + e)
  {
  }

  /** `_change_fleet_direction`: the whole fleet drops by the drop speed
      and the direction is reversed; nothing else changes. */
  function ChangeFleetDirection(s: Settings, w: World): (r: World)
    ensures r.fleetDirection == -w.fleetDirection
    ensures |r.aliens| == |w.aliens|
    ensures forall i :: 0 <= i < |r.aliens| ==>
      && r.aliens[i].x == w.aliens[i].x
      && r.aliens[i].y == w.aliens[i].y + s.fleetDropSpeed
      && r.aliens[i].w == w.aliens[i].w && r.aliens[i].h == w.aliens[i].h
    ensures r.(aliens := w.aliens, fleetDirection := w.fleetDirection) == w
  {
    w.(aliens := Drop(w.aliens, s.fleetDropSpeed), fleetDirection := -w.fleetDirection)
  }

  /** Changing direction twice restores the direction and leaves the fleet
      two drop steps lower. */
  lemma ChangeTwice(s: Settings, w: World)
    ensures var r := ChangeFleetDirection(s, ChangeFleetDirection(s, w));
      r == w.(aliens := Drop(w.aliens, 2 * s.fleetDropSpeed))
  {
    DropDrop(w.aliens, s.fleetDropSpeed, s.fleetDropSpeed);
  }

  /** Some alien reports, through `Alien.check_edges`, that it is at an edge. */
  predicate AnyAtEdge(atEdge: Rect -> bool, aliens: seq<Rect>) {
    exists i :: 0 <= i < |aliens| && atEdge(aliens[i])
  }

  /** `_check_fleet_edges`: scan the aliens in order, and at the first one
      at an edge change direction and stop, so the fleet turns once however
      many aliens are at an edge. */
  method ScanFleetEdges(s: Settings, atEdge: Rect -> bool, w: World) returns (r: World)
    ensures AnyAtEdge(atEdge, w.aliens) ==> r == ChangeFleetDirection(s, w)
    ensures !AnyAtEdge(atEdge, w.aliens) ==> r == w
  {
    r := w;
    var i := 0;
    while i < |w.aliens|
      invariant 0 <= i <= |w.aliens|
      invariant forall j :: 0 <= j < i ==> !atEdge(w.aliens[j])
      invariant r == w
    {
      if atEdge(w.aliens[i]) {
        r := ChangeFleetDirection(s, w);
        return;
      }
      i := i + 1;
    }
  }
}
