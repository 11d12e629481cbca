/**
  The per-frame decision made by `update_timer_and_set_high_score`: how the
  elapsed time advances, whether the timer readout is redrawn, and whether the
  level is over. Time is `f32` in the game; here it is a `real` and `floor()`
  is `.Floor`. The second half runs that decision over a whole level session,
  one tick per frame delta.
 */
module Timer {

  /** The state to switch to; the main menu is the only target used here. */
  datatype NextState = MainMenu

  /** The transition a state hands back to the state machine (`Trans::None` is `Stay`). */
  datatype Trans = Stay | Replace(target: NextState)

  /**
    Text of the timer readout. `Initial(max)` is the text written when the
    readout is created (`0s /{max}s`, no space before the slash) and
    `Running(secs, max)` the one written on later redraws (`{secs}s / {max}s`).
   */
  datatype TimerText = Initial(max: real) | Running(secs: int, max: real)

  /** What one tick decides, before any entity is touched. */
  datatype Step = Step(newTime: real, redraw: bool, trans: Trans)

  /**
    One tick: the new elapsed time, whether the readout must be redrawn (a whole
    second was crossed, or the level is over) and the transition. The level is
    over when the elapsed time BEFORE this tick has reached `maxTime`.
   */
  function TickStep(elapsed: real, delta: real, maxTime: real): (s: Step)
    ensures s.trans.Replace? ==> s.redraw
    ensures delta >= 0.0 ==> s.newTime >= elapsed
  {
    var newTime := elapsed + delta;
    var timeChangedByASecond := newTime.Floor > elapsed.Floor;
    var levelIsOver := elapsed >= maxTime;
    Step(newTime, timeChangedByASecond || levelIsOver,
         if levelIsOver then Replace(MainMenu) else Stay)
  }

  /** Some whole second `k` lies in the half-open interval (a, b]. */
  ghost predicate CrossesWholeSecond(a: real, b: real) {
    exists k: int :: WholeSecondIn(k, a, b)
  }

  ghost predicate WholeSecondIn(k: int, a: real, b: real) {
    a < k as real <= b
  }

  /**
    The readout is redrawn exactly when the level is over or the tick passes a
    whole second, whatever the sign of the delta.
   */
  lemma RedrawExactlyOnWholeSecond(elapsed: real, delta: real, maxTime: real)
    ensures TickStep(elapsed, delta, maxTime).redraw
        <==> elapsed >= maxTime || CrossesWholeSecond(elapsed, elapsed + delta)
  {
    var b := elapsed + delta;
    if b.Floor > elapsed.Floor {
      assert WholeSecondIn(elapsed.Floor + 1, elapsed, b);
    }
    if CrossesWholeSecond(elapsed, b) {
      var k: int :| WholeSecondIn(k, elapsed, b);
      assert elapsed.Floor < k <= b.Floor;
    }
  }

  /** 0.95 s plus 0.1 s passes second 1 and redraws; 0.2 s plus 0.1 s stays within second 0. */
  lemma RedrawExample()
    ensures TickStep(0.95, 0.1, 30.0).redraw
    ensures TickStep(0.95, 0.1, 30.0).newTime == 1.05
    ensures !TickStep(0.2, 0.1, 30.0).redraw
  {
  }

  /**
    Expiry comes one frame late: the tick that takes the elapsed time to
    `maxTime` or past it still says `Stay`, and the next tick says `Replace`.
   */
  lemma ExpiresOneFrameLate(elapsed: real, delta: real, nextDelta: real, maxTime: real)
    requires elapsed < maxTime <= elapsed + delta
    ensures TickStep(elapsed, delta, maxTime).trans == Stay
    ensures TickStep(TickStep(elapsed, delta, maxTime).newTime, nextDelta, maxTime).trans
         == Replace(MainMenu)
  {
  }

  // ---------------------------------------------------------------------------
  // A level session: one tick per frame delta.

  function Sum(deltas: seq<real>): real {
    if deltas == [] then 0.0 else deltas[0] + Sum(deltas[1..])
  }

  /** The elapsed time after ticking once for each of `deltas`. */
  function ElapsedAfter(elapsed: real, deltas: seq<real>, maxTime: real): real
    decreases |deltas|
  {
    if deltas == [] then elapsed
    else ElapsedAfter(TickStep(elapsed, deltas[0], maxTime).newTime, deltas[1..], maxTime)
  }

  /** Time accumulates exactly: the elapsed time is the start plus every delta. */
  lemma {:induction false} ElapsedIsSum(elapsed: real, deltas: seq<real>, maxTime: real)
    ensures ElapsedAfter(elapsed, deltas, maxTime) == elapsed + Sum(deltas)
    decreases |deltas|
  {
    if deltas != [] {
      ElapsedIsSum(elapsed + deltas[0], deltas[1..], maxTime);
    }
  }

  lemma PrefixTail(deltas: seq<real>, i: nat)
    requires 0 < i <= |deltas|
    ensures deltas[..i][0] == deltas[0] && deltas[..i][1..] == deltas[1..][..i - 1]
  {
  }

  /** With no negative frame delta, the elapsed time never goes down. */
  lemma {:induction false} ElapsedNonDecreasing(elapsed: real, deltas: seq<real>, maxTime: real, i: nat, j: nat)
    requires forall k :: 0 <= k < |deltas| ==> deltas[k] >= 0.0
    requires i <= j <= |deltas|
    ensures ElapsedAfter(elapsed, deltas[..i], maxTime) <= ElapsedAfter(elapsed, deltas[..j], maxTime)
    decreases |deltas|
  {
    if j > 0 {
      var e := TickStep(elapsed, deltas[0], maxTime).newTime;
      PrefixTail(deltas, j);
      if i == 0 {
        ElapsedNonDecreasing(e, deltas[1..], maxTime, 0, j - 1);
        assert deltas[1..][..0] == [];
      } else {
        PrefixTail(deltas, i);
        ElapsedNonDecreasing(e, deltas[1..], maxTime, i - 1, j - 1);
      }
    }
  }

  /**
    The transitions a level state sees over a session with the given frame
    deltas. The state is replaced on the first `Replace`, so no tick follows it.
   */
  function Session(elapsed: real, deltas: seq<real>, maxTime: real): (ts: seq<Trans>)
    ensures |ts| <= |deltas|
    ensures forall i :: 0 <= i < |ts| - 1 ==> ts[i] == Stay
    ensures |ts| < |deltas| ==> |ts| > 0 && ts[|ts| - 1] == Replace(MainMenu)
    decreases |deltas|
  {
    if deltas == [] then []
    else
      var step := TickStep(elapsed, deltas[0], maxTime);
      if step.trans.Replace? then [step.trans]
      else [step.trans] + Session(step.newTime, deltas[1..], maxTime)
  }

  /** The number of ticks in `ts` that commit the high score. */
  function Commits(ts: seq<Trans>): nat {
    if ts == [] then 0 else (if ts[0].Replace? then 1 else 0) + Commits(ts[1..])
  }

  lemma {:induction false} CommitsOfStays(ts: seq<Trans>)
    requires forall i :: 0 <= i < |ts| ==> ts[i] == Stay
    ensures Commits(ts) == 0
  {
    if ts != [] {
      CommitsOfStays(ts[1..]);
    }
  }

  /**
    The high score is committed at most once per session, and exactly once
    when the session ends by expiry.
   */
  lemma {:induction false} CommitAtMostOnce(elapsed: real, deltas: seq<real>, maxTime: real)
    ensures var ts := Session(elapsed, deltas, maxTime);
      Commits(ts) == (if ts != [] && ts[|ts| - 1].Replace? then 1 else 0)
    decreases |deltas|
  {
    if deltas != [] {
      var step := TickStep(elapsed, deltas[0], maxTime);
      var ts := Session(elapsed, deltas, maxTime);
      if step.trans.Replace? {
        assert ts[1..] == [];
      } else {
        CommitAtMostOnce(step.newTime, deltas[1..], maxTime);
        assert ts[1..] == Session(step.newTime, deltas[1..], maxTime);
      }
    }
  }

  /**
    The expiry boundary: the session ends with `Replace` on tick `i` exactly
    when tick `i` is the first whose elapsed time BEFORE the tick has reached
    `maxTime`.
   */
  lemma {:induction false} SessionEndsAtFirstExpiredTick(elapsed: real, deltas: seq<real>, maxTime: real, i: nat)
    requires i < |deltas|
    ensures var ts := Session(elapsed, deltas, maxTime);
      (|ts| == i + 1 && ts[i] == Replace(MainMenu))
      <==> (ElapsedAfter(elapsed, deltas[..i], maxTime) >= maxTime
            && forall j :: 0 <= j < i ==> ElapsedAfter(elapsed, deltas[..j], maxTime) < maxTime)
    decreases |deltas|
  {
    var ts := Session(elapsed, deltas, maxTime);
    assert deltas[..0] == [];
    if elapsed >= maxTime {
      assert ts == [Replace(MainMenu)];
    } else if i > 0 {
      var e := TickStep(elapsed, deltas[0], maxTime).newTime;
      var rest := deltas[1..];
      assert ts == [Stay] + Session(e, rest, maxTime);
      SessionEndsAtFirstExpiredTick(e, rest, maxTime, i - 1);
      PrefixTail(deltas, i);
      forall j | 0 < j <= i
        ensures ElapsedAfter(elapsed, deltas[..j], maxTime) == ElapsedAfter(e, rest[..j - 1], maxTime)
      {
        PrefixTail(deltas, j);
      }
      if forall j :: 0 <= j < i - 1 ==> ElapsedAfter(e, rest[..j], maxTime) < maxTime {
        forall j | 0 <= j < i
          ensures ElapsedAfter(elapsed, deltas[..j], maxTime) < maxTime
        {
          if j > 0 {
            assert ElapsedAfter(e, rest[..j - 1], maxTime) < maxTime;
          }
        }
      }
      if forall j :: 0 <= j < i ==> ElapsedAfter(elapsed, deltas[..j], maxTime) < maxTime {
        forall j | 0 <= j < i - 1
          ensures ElapsedAfter(e, rest[..j], maxTime) < maxTime
        {
          assert ElapsedAfter(elapsed, deltas[..j + 1], maxTime) < maxTime;
        }
      }
    }
  }

  /**
    With a 5 s limit and deltas 4.9, 0.05, 0.1, every tick starts below the
    limit (0, 4.9, 4.95 s), so all three stay; a fourth tick, starting at
    5.05 s, replaces.
   */
  lemma SessionExample()
    ensures Session(0.0, [4.9, 0.05, 0.1], 5.0) == [Stay, Stay, Stay]
    ensures Session(0.0, [4.9, 0.05, 0.1, 0.1], 5.0) == [Stay, Stay, Stay, Replace(MainMenu)]
  {
  }
}
