/**
 * The path assembler: three phases, one per intruder speed, each taking one greedy
 * decision per time step and threading the position and the ledger forward.
 */
module Flight {
  import opened Arena
  import opened Sensor
  import opened Selector
  import opened Ledger

  /** One decision of the run: the time it is taken at and the intruder speed it looks for. */
  datatype Step = Step(time: int, speed: SpeedClass)

  /** int(a / b) for a positive divisor: true division truncated toward zero. */
  function TruncDiv(a: int, b: int): (q: int)
    requires b > 0
    ensures a >= 0 ==> 0 <= q * b <= a < q * b + b
    ensures a < 0 ==> q * b - b < a <= q * b <= 0
  {
    if a >= 0 then
      DivBounds(a, b);
      a / b
    else
      DivBounds(-a, b);
      -((-a) / b)
  }

  /** Euclidean division of a non-negative number rounds down. */
  lemma DivBounds(a: int, b: int)
    requires a >= 0 && b > 0
    ensures 0 <= (a / b) * b <= a < (a / b) * b + b
  {
    assert a == (a / b) * b + a % b;
    assert a / b >= 0;
  }

  /** The steps of range(lo, hi) at one speed. */
  function Phase(lo: int, hi: int, speed: SpeedClass): (s: seq<Step>)
    ensures |s| == if lo < hi then hi - lo else 0
    ensures forall i :: 0 <= i < |s| ==> s[i] == Step(lo + i, speed)
  {
    if lo < hi then seq(hi - lo, i => Step(lo + i, speed)) else []
  }

  /**
   * The decisions of a run in the order they are taken: speed 4 over
   * range(int(d/32)), speed 1 over range(int(d/32), int(d/32) + int(d/8)),
   * speed 0.1 over range(int(d/8), d).
   */
  function Schedule(duration: int): seq<Step>
  {
    var p1 := TruncDiv(duration, 32);
    var p8 := TruncDiv(duration, 8);
    Phase(0, p1, 4.0) + Phase(p1, p1 + p8, 1.0) + Phase(p8, duration, 0.1)
  }

  /** The number of steps: d + d/32 for a non-negative duration (165 for 160), none otherwise. */
  lemma ScheduleLength(d: int)
    ensures |Schedule(d)| == if d >= 0 then d + d / 32 else 0
  {
    var p1 := TruncDiv(d, 32);
    var p8 := TruncDiv(d, 8);
    if d >= 0 {
      assert 0 <= p1 <= p8 <= d;
    } else {
      assert -d >= (-d) / 8 >= 0;
      assert p1 <= 0 && p8 <= 0 && d <= p8;
    }
  }

  /**
   * Step i of a run with a non-negative duration: time i at speed 4 in the first
   * phase, time i at speed 1 in the second, and time i - d/32 at speed 0.1 in the
   * third, which restarts at d/8 rather than where the second phase ended.
   */
  lemma ScheduleAt(d: int, i: int)
    requires 0 <= d && 0 <= i < |Schedule(d)|
    ensures Schedule(d)[i] ==
              if i < d / 32 then Step(i, 4.0)
              else if i < d / 32 + d / 8 then Step(i, 1.0)
              else Step(i - d / 32, 0.1)
  {
    var p1 := TruncDiv(d, 32);
    var p8 := TruncDiv(d, 8);
    assert 0 <= p1 <= p8 <= d;
    var s1, s2, s3 := Phase(0, p1, 4.0), Phase(p1, p1 + p8, 1.0), Phase(p8, d, 0.1);
    assert Schedule(d) == s1 + s2 + s3;
    if i < p1 {
      assert Schedule(d)[i] == s1[i];
    } else if i < p1 + p8 {
      assert Schedule(d)[i] == s2[i - p1];
    } else {
      assert Schedule(d)[i] == s3[i - p1 - p8];
    }
  }

  /**
   * With the configured duration the last five times of the second phase are
   * visited again by the third: time 20 is step 20 at speed 1 and step 25 at speed 0.1.
   */
  lemma PhasesOverlap()
    ensures |Schedule(TimeDuration)| == 165
    ensures Schedule(TimeDuration)[20] == Step(20, 1.0) && Schedule(TimeDuration)[25] == Step(20, 0.1)
  {
    ScheduleLength(TimeDuration);
    ScheduleAt(TimeDuration, 20);
    ScheduleAt(TimeDuration, 25);
  }

  /** Every decision of a run is taken at a time of range(duration) and at one of the three speeds. */
  lemma ScheduleInRange(d: int)
    ensures forall i :: 0 <= i < |Schedule(d)| ==> 0 <= Schedule(d)[i].time < d && PhaseSpeed(Schedule(d)[i].speed)
  {
    var p1, p8 := TruncDiv(d, 32), TruncDiv(d, 8);
    var s1, s2, s3 := Phase(0, p1, 4.0), Phase(p1, p1 + p8, 1.0), Phase(p8, d, 0.1);
    assert Schedule(d) == s1 + s2 + s3;
  }

  /** The schedule is the three phase ranges laid end to end, as FlyPhase consumes them. */
  lemma SchedulePhases(d: int)
    ensures var p1, p8 := TruncDiv(d, 32), TruncDiv(d, 8);
            var n1, n2 := Span(0, p1), Span(0, p1) + Span(p1, p1 + p8);
            |Schedule(d)| == n2 + Span(p8, d) &&
            (forall i :: 0 <= i < 0 + Span(0, p1) ==> Schedule(d)[i] == Step(0 + (i - 0), 4.0)) &&
            (forall i :: n1 <= i < n1 + Span(p1, p1 + p8) ==> Schedule(d)[i] == Step(p1 + (i - n1), 1.0)) &&
            (forall i :: n2 <= i < n2 + Span(p8, d) ==> Schedule(d)[i] == Step(p8 + (i - n2), 0.1))
  {
    var p1, p8 := TruncDiv(d, 32), TruncDiv(d, 8);
    var s1, s2, s3 := Phase(0, p1, 4.0), Phase(p1, p1 + p8, 1.0), Phase(p8, d, 0.1);
    assert Schedule(d) == s1 + s2 + s3;
  }

  /** The number of values in range(lo, hi). */
  function Span(lo: int, hi: int): nat
  {
    if lo < hi then hi - lo else 0
  }

  function Sum(s: seq<nat>): nat
  {
    if |s| == 0 then 0 else Sum(s[..|s| - 1]) + s[|s| - 1]
  }

  /**
   * The state of a run after |path| decisions: every decision so far followed the
   * selection rule from the ledger the previous one left, every move is inside the
   * arena, each ledger is a prefix of every later one, and the detection total is
   * the sum of the per-step counts and the length of the ledger, whose entries
   * are all creditable.
   */
  ghost predicate Trace(steps: seq<Step>, draws: seq<Draw>, path: seq<Point>, counts: seq<nat>,
                        ledgers: seq<seq<Entry>>, ledger: seq<Entry>, detected: int)
  {
    |draws| == |steps| && |path| <= |steps| && |counts| == |path| && |ledgers| == |path| + 1 &&
    ledgers[0] == [] && ledgers[|path|] == ledger &&
    detected == Sum(counts) == |ledger| && NoDup(ledger) &&
    CreditableLedger(ledger) &&
    (forall k :: 0 <= k < |path| ==>
       InArena(path[k]) &&
       IsBestMove(ledgers[k], steps[k].time, steps[k].speed, draws[k], path[k], counts[k], ledgers[k + 1])) &&
    Chain(ledgers)
  }

  /** Each ledger of the sequence is a prefix of every later one. */
  ghost predicate Chain(ledgers: seq<seq<Entry>>)
  {
    forall i, j :: 0 <= i <= j < |ledgers| ==> ledgers[i] <= ledgers[j]
  }

  /** Extending the last ledger of a chain extends the chain. */
  lemma ChainStep(ledgers: seq<seq<Entry>>, next: seq<Entry>)
    requires Chain(ledgers) && |ledgers| > 0 && ledgers[|ledgers| - 1] <= next
    ensures Chain(ledgers + [next])
  {
    var ledgers' := ledgers + [next];
    var ledger := ledgers[|ledgers| - 1];
    forall i, j | 0 <= i <= j < |ledgers'|
      ensures ledgers'[i] <= ledgers'[j]
    {
      if j < |ledgers| {
        assert ledgers'[i] == ledgers[i] && ledgers'[j] == ledgers[j];
      } else if i < j {
        assert ledgers'[i] == ledgers[i] <= ledger;
        assert ledgers[i] == ledger[..|ledgers[i]|] == next[..|ledgers[i]|];
      }
    }
  }

  /** Appending creditable entries to a creditable ledger keeps it creditable. */
  lemma CreditableStep(ledger: seq<Entry>, next: seq<Entry>)
    requires CreditableLedger(ledger) && ledger <= next
    requires forall i :: |ledger| <= i < |next| ==> Creditable(next[i])
    ensures CreditableLedger(next)
  {
    forall i | 0 <= i < |next|
      ensures Creditable(next[i])
    {
      if i < |ledger| {
        assert next[i] == ledger[i];
      }
    }
  }

  lemma TraceStep(steps: seq<Step>, draws: seq<Draw>, path: seq<Point>, counts: seq<nat>,
                  ledgers: seq<seq<Entry>>, ledger: seq<Entry>, detected: int,
                  move: Point, counter: nat, next: seq<Entry>)
    requires Trace(steps, draws, path, counts, ledgers, ledger, detected)
    requires |path| < |steps|
    requires IsBestMove(ledger, steps[|path|].time, steps[|path|].speed, draws[|path|], move, counter, next)
    requires InArena(move) && NoDup(next) && ledger <= next && |next| == |ledger| + counter
    requires forall i :: |ledger| <= i < |next| ==> Creditable(next[i])
    ensures Trace(steps, draws, path + [move], counts + [counter], ledgers + [next], next, detected + counter)
  {
    var path', counts', ledgers' := path + [move], counts + [counter], ledgers + [next];
    assert counts'[..|counts|] == counts;
    assert Sum(counts') == Sum(counts) + counter;
    forall k | 0 <= k < |path'|
      ensures InArena(path'[k])
      ensures IsBestMove(ledgers'[k], steps[k].time, steps[k].speed, draws[k], path'[k], counts'[k], ledgers'[k + 1])
    {
      if k < |path| {
        assert path'[k] == path[k] && counts'[k] == counts[k];
        assert ledgers'[k] == ledgers[k] && ledgers'[k + 1] == ledgers[k + 1];
      } else {
        assert path'[k] == move && counts'[k] == counter;
        assert ledgers'[k] == ledger && ledgers'[k + 1] == next;
      }
    }
    CreditableStep(ledger, next);
    ChainStep(ledgers, next);
  }

  /**
   * One phase: for each time of range(lo, hi), ask the selector for a move from
   * the previous one, append it to the path and add its count to the total. The
   * draws supply, per step, what the random move generator would return.
   */
  method FlyPhase(lo: int, hi: int, speed: SpeedClass, ghost steps: seq<Step>, draws: seq<Draw>,
                  previous: Point, path: seq<Point>, detected: nat, ledger: seq<Entry>,
                  ghost ledgers: seq<seq<Entry>>, ghost counts: seq<nat>)
    returns (previous': Point, path': seq<Point>, detected': nat, ledger': seq<Entry>,
             ghost ledgers': seq<seq<Entry>>, ghost counts': seq<nat>)
    requires Trace(steps, draws, path, counts, ledgers, ledger, detected)
    requires |path| + Span(lo, hi) <= |steps|
    requires forall i :: |path| <= i < |path| + Span(lo, hi) ==> steps[i] == Step(lo + (i - |path|), speed)
    requires forall i :: 0 <= i < |draws| ==> ValidDraw(draws[i])
    requires PhaseSpeed(speed)
    ensures Trace(steps, draws, path', counts', ledgers', ledger', detected')
    ensures |path'| == |path| + Span(lo, hi)
    ensures path <= path' && counts <= counts' && ledgers <= ledgers'
  {
    previous', path', detected', ledger' := previous, path, detected, ledger;
    ledgers', counts' := ledgers, counts;
    var time := lo;
    while time < hi
      invariant Trace(steps, draws, path', counts', ledgers', ledger', detected')
      invariant lo <= time <= if lo < hi then hi else lo
      invariant |path'| == |path| + (time - lo)
      invariant path <= path' && counts <= counts' && ledgers <= ledgers'
    {
      assert steps[|path'|] == Step(time, speed);
      var move, counter, next := MakeBestMove(ledger', previous', time, speed, draws[|path'|]);
      TraceStep(steps, draws, path', counts', ledgers', ledger', detected', move, counter, next);
      previous', ledger', detected' := move, next, detected' + counter;
      path' := path' + [move];
      ledgers', counts' := ledgers' + [next], counts' + [counter];
      time := time + 1;
    }
  }

  /**
   * Assembles a patrol path from the start position and an empty ledger: speed 4,
   * then speed 1, then speed 0.1, over the time ranges of Schedule, summing the counts.
   */
  method FlightPath(start: Point, duration: int, draws: seq<Draw>)
    returns (path: seq<Point>, detected: nat, ledger: seq<Entry>,
             ghost ledgers: seq<seq<Entry>>, ghost counts: seq<nat>)
    requires |draws| == |Schedule(duration)|
    requires forall i :: 0 <= i < |draws| ==> ValidDraw(draws[i])
    ensures |path| == |Schedule(duration)| && |counts| == |path| && |ledgers| == |path| + 1
    ensures forall k :: 0 <= k < |path| ==> InArena(path[k])
    ensures ledgers[0] == [] && ledgers[|path|] == ledger
    ensures forall k :: 0 <= k < |path| ==>
              IsBestMove(ledgers[k], Schedule(duration)[k].time, Schedule(duration)[k].speed,
                         draws[k], path[k], counts[k], ledgers[k + 1])
    ensures Chain(ledgers)
    ensures detected == Sum(counts) == |ledger|
    ensures NoDup(ledger) && CreditableLedger(ledger)
    ensures detected <= Capacity
  {
    ghost var steps := Schedule(duration);
    var p1 := TruncDiv(duration, 32);
    var p8 := TruncDiv(duration, 8);
    SchedulePhases(duration);
    var previous := start;
    path, detected, ledger := [], 0, [];
    ledgers, counts := [[]], [];
    assert Trace(steps, draws, path, counts, ledgers, ledger, detected);

    previous, path, detected, ledger, ledgers, counts :=
      FlyPhase(0, p1, 4.0, steps, draws, previous, path, detected, ledger, ledgers, counts);
    assert |path| == Span(0, p1);
    previous, path, detected, ledger, ledgers, counts :=
      FlyPhase(p1, p1 + p8, 1.0, steps, draws, previous, path, detected, ledger, ledgers, counts);
    assert |path| == Span(0, p1) + Span(p1, p1 + p8);
    previous, path, detected, ledger, ledgers, counts :=
      FlyPhase(p8, duration, 0.1, steps, draws, previous, path, detected, ledger, ledgers, counts);
    LedgerCapacity(ledger);
  }
}
