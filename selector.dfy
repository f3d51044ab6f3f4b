/** The greedy move selector: score sampled candidates and commit to the first best one. */
module Selector {
  import opened Arena
  import opened Sensor

  /**
   * What the random move generator supplies for one decision: the candidate moves,
   * in the order they are drawn, and the move used when no candidate scores.
   */
  datatype Draw = Draw(candidates: seq<Point>, fallback: Point)

  /** The generator's contract: the fixed number of candidates, every move inside the arena. */
  predicate ValidDraw(d: Draw)
  {
    |d.candidates| == CandidatesPerMove && InArena(d.fallback) &&
    forall i :: 0 <= i < |d.candidates| ==> InArena(d.candidates[i])
  }

  /** The scan the selector performs from a candidate position. */
  function ProbeAt(at: Point, time: int, speed: SpeedClass): Probe
  {
    Probe(at, SensorRange, speed, time)
  }

  /** The number of new detections a candidate would earn against the given ledger. */
  function Gain(ledger: seq<Entry>, at: Point, time: int, speed: SpeedClass): int
  {
    |Scan(ProbeAt(at, time, speed), ledger)| - |ledger|
  }

  /**
   * The selection rule: the credited count is the largest gain of any candidate
   * (each scored against the same, original ledger); a positive count selects the
   * first candidate reaching it, with that candidate's scanned ledger; a zero count
   * selects the fallback move and leaves the ledger as it was.
   */
  ghost predicate IsBestMove(ledger: seq<Entry>, time: int, speed: SpeedClass, d: Draw,
                             move: Point, counter: int, result: seq<Entry>)
  {
    (forall i :: 0 <= i < |d.candidates| ==> Gain(ledger, d.candidates[i], time, speed) <= counter) &&
    (counter == 0 ==> move == d.fallback && result == ledger) &&
    (counter != 0 ==>
       exists k :: 0 <= k < |d.candidates| && move == d.candidates[k] &&
         counter == Gain(ledger, d.candidates[k], time, speed) &&
         result == Scan(ProbeAt(d.candidates[k], time, speed), ledger) &&
         forall j :: 0 <= j < k ==> Gain(ledger, d.candidates[j], time, speed) < counter)
  }

  /** A candidate's gain is never negative: a scan only appends. */
  lemma GainNonNegative(ledger: seq<Entry>, at: Point, time: int, speed: SpeedClass)
    ensures Gain(ledger, at, time, speed) >= 0
  {
    ScanCredits(ProbeAt(at, time, speed), ledger);
  }

  /**
   * Scores every candidate against the original ledger, keeping a candidate only
   * when it beats the best count so far; if nothing scores, the fallback move is taken.
   */
  method MakeBestMove(ledger: seq<Entry>, previous: Point, time: int, speed: SpeedClass, d: Draw)
    returns (move: Point, counter: nat, result: seq<Entry>)
    requires ValidDraw(d)
    ensures IsBestMove(ledger, time, speed, d, move, counter, result)
    ensures ledger <= result && |result| == |ledger| + counter
    ensures InArena(move)
    ensures NoDup(ledger) ==> NoDup(result)
    ensures forall i :: |ledger| <= i < |result| ==> result[i].speed == speed && 0 <= result[i].row < BoardHeight
  {
    counter := 0;
    result := ledger;
    move := previous;
    for m := 0 to |d.candidates|
      invariant forall i :: 0 <= i < m ==> Gain(ledger, d.candidates[i], time, speed) <= counter
      invariant counter == 0 ==> move == previous && result == ledger
      invariant counter != 0 ==>
                  exists k :: 0 <= k < m && move == d.candidates[k] &&
                    counter == Gain(ledger, d.candidates[k], time, speed) &&
                    result == Scan(ProbeAt(d.candidates[k], time, speed), ledger) &&
                    forall j :: 0 <= j < k ==> Gain(ledger, d.candidates[j], time, speed) < counter
      invariant ledger <= result && |result| == |ledger| + counter
      invariant counter != 0 ==> InArena(move)
      invariant NoDup(ledger) ==> NoDup(result)
    {
      var found, scanned := SensorCircle(d.candidates[m], SensorRange, speed, time, ledger);
      if found > counter {
        counter := found;
        result := scanned;
        move := d.candidates[m];
        if NoDup(ledger) {
          ScanKeepsNoDup(ProbeAt(move, time, speed), ledger);
        }
      }
    }
    if counter == 0 {
      move := d.fallback;
    }
    BestMoveCredits(ledger, time, speed, d, move, counter, result);
  }

  /** A decision only appends entries of the speed it looks for, on rows of the arena. */
  lemma BestMoveCredits(ledger: seq<Entry>, time: int, speed: SpeedClass, d: Draw,
                        move: Point, counter: int, result: seq<Entry>)
    requires IsBestMove(ledger, time, speed, d, move, counter, result)
    ensures forall i :: |ledger| <= i < |result| ==> result[i].speed == speed && 0 <= result[i].row < BoardHeight
  {
    if counter != 0 {
      var k :| 0 <= k < |d.candidates| && move == d.candidates[k] &&
               result == Scan(ProbeAt(d.candidates[k], time, speed), ledger);
      ScanRowsInBox(ProbeAt(move, time, speed), ledger);
    }
  }

  /** The rule leaves no choice: two outcomes of one decision are equal. */
  lemma BestMoveDeterministic(ledger: seq<Entry>, time: int, speed: SpeedClass, d: Draw,
                              move1: Point, counter1: nat, result1: seq<Entry>,
                              move2: Point, counter2: nat, result2: seq<Entry>)
    requires IsBestMove(ledger, time, speed, d, move1, counter1, result1)
    requires IsBestMove(ledger, time, speed, d, move2, counter2, result2)
    ensures move1 == move2 && counter1 == counter2 && result1 == result2
  {
    if counter1 != 0 && counter2 != 0 {
      var k1 :| 0 <= k1 < |d.candidates| && move1 == d.candidates[k1] &&
                counter1 == Gain(ledger, d.candidates[k1], time, speed) &&
                result1 == Scan(ProbeAt(d.candidates[k1], time, speed), ledger) &&
                forall j :: 0 <= j < k1 ==> Gain(ledger, d.candidates[j], time, speed) < counter1;
      var k2 :| 0 <= k2 < |d.candidates| && move2 == d.candidates[k2] &&
                counter2 == Gain(ledger, d.candidates[k2], time, speed) &&
                result2 == Scan(ProbeAt(d.candidates[k2], time, speed), ledger) &&
                forall j :: 0 <= j < k2 ==> Gain(ledger, d.candidates[j], time, speed) < counter2;
      assert counter1 == counter2;
    }
  }
}
