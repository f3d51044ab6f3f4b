/**
 * The scan evaluator: which intruder rows the sensor credits from one position
 * at one time, given the ledger of rows already credited.
 */
module Sensor {
  import opened Arena
  import opened Geometry

  /** The arguments of one scan that stay fixed while the grid is swept. */
  datatype Probe = Probe(center: Point, range: int, speed: SpeedClass, time: int)

  function Floor(r: real): int
  {
    r.Floor
  }

  function Ceil(r: real): int
  {
    -((-r).Floor)
  }

  function MaxInt(a: int, b: int): int
  {
    if a < b then b else a
  }

  function MinInt(a: int, b: int): int
  {
    if a < b then a else b
  }

  /** Half-open integer ranges [xl, xr) of columns and [yl, yu) of rows to sweep. */
  datatype Box = Box(xl: int, xr: int, yl: int, yu: int)

  /** The bounding box around the centre, padded by one cell and clipped to the arena. */
  function ScanBox(center: Point, length: int): (b: Box)
    ensures 0 <= b.xl && b.xr <= BoardWidth && 0 <= b.yl && b.yu <= BoardHeight
  {
    Box(MaxInt(0, Floor(center.x) - length), MinInt(BoardWidth, Ceil(center.x) + length + 1),
        MaxInt(0, Floor(center.y) - length), MinInt(BoardHeight, Ceil(center.y) + length + 1))
  }

  /** The time at which an intruder of this speed, entering at the right edge, reaches column x. */
  function Arrival(x: int, speed: SpeedClass): real
  {
    (BoardWidth - x) as real / speed
  }

  /** Cell (x, y) is in the sensor circle and an intruder of the probe's speed is there now. */
  predicate Hit(p: Probe, x: int, y: int)
  {
    InsideCircle(p.center, Point(x as real, y as real), p.range as real) && Arrival(x, p.speed) == p.time as real
  }

  /** The sweep of one row from column x on, as the inner loop performs it. */
  function RowScan(p: Probe, y: int, x: int, xr: int, ledger: seq<Entry>): (r: seq<Entry>)
    ensures r == ledger || r == ledger + [Entry(p.speed, y)]
    decreases xr - x
  {
    if x >= xr then ledger
    else if Entry(p.speed, y) in ledger then ledger
    else if Hit(p, x, y) then RowScan(p, y, x + 1, xr, ledger + [Entry(p.speed, y)])
    else RowScan(p, y, x + 1, xr, ledger)
  }

  /** The sweep of the rows of the box from row y on, as the outer loop performs it. */
  function RowsScan(p: Probe, y: int, b: Box, ledger: seq<Entry>): (r: seq<Entry>)
    ensures ledger <= r
    decreases b.yu - y
  {
    if y >= b.yu then ledger
    else RowsScan(p, y + 1, b, RowScan(p, y, b.xl, b.xr, ledger))
  }

  /** The ledger after a whole scan. */
  function Scan(p: Probe, ledger: seq<Entry>): (r: seq<Entry>)
    ensures ledger <= r
  {
    var b := ScanBox(p.center, p.range);
    RowsScan(p, b.yl, b, ledger)
  }

  /**
   * Sweeps the box row by row. A row already in the ledger is abandoned by pushing
   * the column index past the right bound; a cell inside the circle whose arrival
   * time is now credits its row. Returns the number of credits and the extended copy.
   */
  method SensorCircle(center: Point, length: int, speed: SpeedClass, time: int, history: seq<Entry>)
    returns (counter: nat, temp: seq<Entry>)
    ensures temp == Scan(Probe(center, length, speed, time), history)
    ensures history <= temp && |temp| == |history| + counter
  {
    ghost var p := Probe(center, length, speed, time);
    temp := history;
    counter := 0;
    var b := ScanBox(center, length);
    var y := b.yl;
    while y < b.yu
      invariant history <= temp && |temp| == |history| + counter
      invariant RowsScan(p, y, b, temp) == RowsScan(p, b.yl, b, history)
      decreases b.yu - y
    {
      ghost var rowStart := temp;
      var x := b.xl;
      while x < b.xr
        invariant 0 <= x
        invariant history <= temp && |temp| == |history| + counter
        invariant RowScan(p, y, x, b.xr, temp) == RowScan(p, y, b.xl, b.xr, rowStart)
        decreases b.xr - x
      {
        if Entry(speed, y) !in temp {
          if InsideCircle(center, Point(x as real, y as real), length as real) {
            if (BoardWidth - x) as real / speed == time as real {
              counter := counter + 1;
              temp := temp + [Entry(speed, y)];
            }
          }
        } else {
          x := x + b.xr;
        }
        x := x + 1;
      }
      y := y + 1;
    }
  }

  // ---------------------------------------------------------------------------
  // What a scan credits, stated without the sweep.

  /** Some column in [lo, hi) of row y is a hit. */
  ghost predicate RowHit(p: Probe, y: int, lo: int, hi: int)
  {
    exists x :: lo <= x < hi && Hit(p, x, y)
  }

  /**
   * Row y is detectable: it is a row of the arena, the ledger has not credited it
   * at this speed, and some column of the arena in that row is a hit.
   */
  ghost predicate Detectable(p: Probe, ledger: seq<Entry>, y: int)
  {
    0 <= y < BoardHeight && Entry(p.speed, y) !in ledger && RowHit(p, y, 0, BoardWidth)
  }

  /** The rows from lo to the top of the box that the sweep credits, in row order. */
  ghost function Fresh(p: Probe, ledger: seq<Entry>, b: Box, lo: int): seq<Entry>
    decreases b.yu - lo
  {
    if lo >= b.yu then []
    else (if Entry(p.speed, lo) !in ledger && RowHit(p, lo, b.xl, b.xr) then [Entry(p.speed, lo)] else [])
         + Fresh(p, ledger, b, lo + 1)
  }

  lemma {:induction false} RowScanCredits(p: Probe, y: int, x: int, xr: int, ledger: seq<Entry>)
    ensures RowScan(p, y, x, xr, ledger) ==
              if Entry(p.speed, y) !in ledger && RowHit(p, y, x, xr) then ledger + [Entry(p.speed, y)] else ledger
    decreases xr - x
  {
    var e := Entry(p.speed, y);
    if x >= xr {
      assert !RowHit(p, y, x, xr);
    } else if e in ledger {
    } else if Hit(p, x, y) {
      RowScanCredits(p, y, x + 1, xr, ledger + [e]);
      assert e in ledger + [e];
      assert RowHit(p, y, x, xr);
    } else {
      RowScanCredits(p, y, x + 1, xr, ledger);
      if RowHit(p, y, x, xr) {
        var c :| x <= c < xr && Hit(p, c, y);
        assert c != x;
        assert RowHit(p, y, x + 1, xr);
      }
      if RowHit(p, y, x + 1, xr) {
        var c :| x + 1 <= c < xr && Hit(p, c, y);
        assert RowHit(p, y, x, xr);
      }
    }
  }

  lemma {:induction false} RowsScanCredits(p: Probe, y: int, b: Box, ledger: seq<Entry>, added: seq<Entry>)
    requires forall e :: e in added ==> e.row < y
    ensures RowsScan(p, y, b, ledger + added) == ledger + added + Fresh(p, ledger, b, y)
    decreases b.yu - y
  {
    if y < b.yu {
      var e := Entry(p.speed, y);
      RowScanCredits(p, y, b.xl, b.xr, ledger + added);
      assert e !in added;
      assert RowsScan(p, y, b, ledger + added) == RowsScan(p, y + 1, b, RowScan(p, y, b.xl, b.xr, ledger + added));
      if e !in ledger && RowHit(p, y, b.xl, b.xr) {
        assert RowScan(p, y, b.xl, b.xr, ledger + added) == ledger + (added + [e]);
        RowsScanCredits(p, y + 1, b, ledger, added + [e]);
        assert Fresh(p, ledger, b, y) == [e] + Fresh(p, ledger, b, y + 1);
        assert ledger + (added + [e]) + Fresh(p, ledger, b, y + 1) == ledger + added + ([e] + Fresh(p, ledger, b, y + 1));
      } else {
        assert RowScan(p, y, b.xl, b.xr, ledger + added) == ledger + added;
        RowsScanCredits(p, y + 1, b, ledger, added);
        assert Fresh(p, ledger, b, y) == Fresh(p, ledger, b, y + 1);
      }
    }
  }

  lemma {:induction false} FreshRows(p: Probe, ledger: seq<Entry>, b: Box, lo: int)
    ensures forall i :: 0 <= i < |Fresh(p, ledger, b, lo)| ==>
              var e := Fresh(p, ledger, b, lo)[i];
              e.speed == p.speed && lo <= e.row < b.yu && e !in ledger && RowHit(p, e.row, b.xl, b.xr)
    ensures forall i, j :: 0 <= i < j < |Fresh(p, ledger, b, lo)| ==>
              Fresh(p, ledger, b, lo)[i].row < Fresh(p, ledger, b, lo)[j].row
    ensures forall y :: lo <= y < b.yu && Entry(p.speed, y) !in ledger && RowHit(p, y, b.xl, b.xr) ==>
              Entry(p.speed, y) in Fresh(p, ledger, b, lo)
    decreases b.yu - lo
  {
    if lo < b.yu {
      FreshRows(p, ledger, b, lo + 1);
    }
  }

  /** Every hit of the arena lies in the scanned box: the padding never misses a cell. */
  lemma BoxCoversCircle(p: Probe, x: int, y: int)
    requires 0 <= x < BoardWidth && 0 <= y < BoardHeight
    requires InsideCircle(p.center, Point(x as real, y as real), p.range as real)
    ensures var b := ScanBox(p.center, p.range); b.xl <= x < b.xr && b.yl <= y < b.yu
  {
    InsideCircleAxisBounds(p.center, Point(x as real, y as real), p.range as real);
  }

  /** A row is swept and has a hit in the box exactly when it is a row of the arena with a hit. */
  lemma BoxRowHit(p: Probe, y: int)
    ensures var b := ScanBox(p.center, p.range);
            (b.yl <= y < b.yu && RowHit(p, y, b.xl, b.xr)) <==> (0 <= y < BoardHeight && RowHit(p, y, 0, BoardWidth))
  {
    var b := ScanBox(p.center, p.range);
    if 0 <= y < BoardHeight && RowHit(p, y, 0, BoardWidth) {
      var x :| 0 <= x < BoardWidth && Hit(p, x, y);
      BoxCoversCircle(p, x, y);
      assert RowHit(p, y, b.xl, b.xr);
    }
  }

  /**
   * A scan keeps the ledger as a prefix and appends, in increasing row order, one
   * entry (speed, y) for exactly the detectable rows y; nothing else is appended.
   */
  lemma ScanCredits(p: Probe, ledger: seq<Entry>)
    ensures ledger <= Scan(p, ledger)
    ensures forall i :: |ledger| <= i < |Scan(p, ledger)| ==>
              Scan(p, ledger)[i].speed == p.speed && Detectable(p, ledger, Scan(p, ledger)[i].row)
    ensures forall y :: Detectable(p, ledger, y) ==> Entry(p.speed, y) in Scan(p, ledger)[|ledger|..]
    ensures forall i, j :: |ledger| <= i < j < |Scan(p, ledger)| ==> Scan(p, ledger)[i].row < Scan(p, ledger)[j].row
  {
    var b := ScanBox(p.center, p.range);
    RowsScanCredits(p, b.yl, b, ledger, []);
    assert ledger + [] == ledger;
    var credited := Fresh(p, ledger, b, b.yl);
    assert Scan(p, ledger) == ledger + credited;
    assert Scan(p, ledger)[|ledger|..] == credited;
    FreshRows(p, ledger, b, b.yl);
    forall y
      ensures (b.yl <= y < b.yu && RowHit(p, y, b.xl, b.xr)) <==> (0 <= y < BoardHeight && RowHit(p, y, 0, BoardWidth))
    {
      BoxRowHit(p, y);
    }
  }

  /** Every appended entry is (speed, y) for a row y of the clipped box. */
  lemma ScanRowsInBox(p: Probe, ledger: seq<Entry>)
    ensures forall i :: |ledger| <= i < |Scan(p, ledger)| ==>
              var b := ScanBox(p.center, p.range);
              Scan(p, ledger)[i] == Entry(p.speed, Scan(p, ledger)[i].row) && b.yl <= Scan(p, ledger)[i].row < b.yu
  {
    var b := ScanBox(p.center, p.range);
    RowsScanCredits(p, b.yl, b, ledger, []);
    assert ledger + [] == ledger;
    FreshRows(p, ledger, b, b.yl);
  }

  /** A ledger without duplicates stays without duplicates. */
  lemma ScanKeepsNoDup(p: Probe, ledger: seq<Entry>)
    requires NoDup(ledger)
    ensures NoDup(Scan(p, ledger))
  {
    ScanCredits(p, ledger);
    var s := Scan(p, ledger);
    forall i, j | 0 <= i < j < |s|
      ensures s[i] != s[j]
    {
      if j < |ledger| {
        assert s[i] == ledger[i] && s[j] == ledger[j];
      } else if i < |ledger| {
        assert s[i] in ledger;
        assert Detectable(p, ledger, s[j].row);
      } else {
        assert s[i].row < s[j].row;
      }
    }
  }

  lemma {:induction false} FreshOfSeenRows(p: Probe, ledger: seq<Entry>, b: Box, lo: int)
    requires forall y :: lo <= y < b.yu ==> Entry(p.speed, y) in ledger
    ensures Fresh(p, ledger, b, lo) == []
    decreases b.yu - lo
  {
    if lo < b.yu {
      FreshOfSeenRows(p, ledger, b, lo + 1);
    }
  }

  /** When every row of the box is already credited, the scan changes nothing. */
  lemma ScanAllRowsSeen(p: Probe, ledger: seq<Entry>)
    requires var b := ScanBox(p.center, p.range);
             forall y :: b.yl <= y < b.yu ==> Entry(p.speed, y) in ledger
    ensures Scan(p, ledger) == ledger
  {
    var b := ScanBox(p.center, p.range);
    RowsScanCredits(p, b.yl, b, ledger, []);
    FreshOfSeenRows(p, ledger, b, b.yl);
    assert ledger + [] == ledger;
    assert Scan(p, ledger) == ledger + [] + [];
  }
}
