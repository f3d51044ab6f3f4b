/** The fixed configuration of the patrol arena and the value types shared by every component. */
module Arena {

  /** Width and height of the arena in board units (20 x 8). */
  const BoardWidth: int := 20
  const BoardHeight: int := 8

  /** Radius of the sensor carried by the patrol aircraft. */
  const SensorRange: int := 1

  /** Number of time steps requested from the path assembler. */
  const TimeDuration: int := 160

  /** Number of candidate moves sampled per greedy decision. */
  const CandidatesPerMove: nat := 10

  datatype Point = Point(x: real, y: real)

  /** A relative intruder speed; zero would make the arrival-time division fail. */
  type SpeedClass = s: real | s != 0.0 witness 1.0

  /** A ledger entry: an intruder of this speed was already credited on this row. */
  datatype Entry = Entry(speed: real, row: int)

  /** The open interior of the arena, the only region a move may land in. */
  predicate InArena(p: Point)
  {
    0.0 < p.x < BoardWidth as real && 0.0 < p.y < BoardHeight as real
  }

  /** The relative speeds of the three intruder classes the path assembler looks for. */
  predicate PhaseSpeed(s: real)
  {
    s == 4.0 || s == 1.0 || s == 0.1
  }

  /** An entry a run can credit: an intruder class of the run and a row of the arena. */
  predicate Creditable(e: Entry)
  {
    PhaseSpeed(e.speed) && 0 <= e.row < BoardHeight
  }

  predicate NoDup<T(==)>(s: seq<T>)
  {
    forall i, j :: 0 <= i < j < |s| ==> s[i] != s[j]
  }
}
