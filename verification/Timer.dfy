/** The software timer: it extends a 16-bit hardware counter by adding up the
    differences between polls. */
module Timer {
  const TIMER_LOAD_VAL := 0xFFFF
  const PERIOD := 0x1_0000
  const WORD := 0x1_0000_0000
  const CFG_HZ := 29952000

  function Sum(gaps: seq<nat>): nat {
    if gaps == [] then 0 else Sum(gaps[..|gaps| - 1]) + gaps[|gaps| - 1]
  }

  /** What the differences of the counter add up to. */
  function Counted(gaps: seq<nat>): nat {
    if gaps == [] then 0 else Counted(gaps[..|gaps| - 1]) + gaps[|gaps| - 1] % PERIOD
  }

  ghost predicate AllShort(gaps: seq<nat>) {
    forall i :: 0 <= i < |gaps| ==> gaps[i] < PERIOD
  }

  lemma OneMore(gaps: seq<nat>, gap: nat)
    ensures Sum(gaps + [gap]) == Sum(gaps) + gap
    ensures Counted(gaps + [gap]) == Counted(gaps) + gap % PERIOD
  {
    assert (gaps + [gap])[..|gaps|] == gaps;
  }

  /** The ticks counted are never more than the ticks that passed, differ from
      them by whole periods of the counter, and are equal to them exactly when
      no two polls were a period or more apart. */
  lemma {:induction false} CountedTicks(gaps: seq<nat>)
    ensures Counted(gaps) <= Sum(gaps) && Counted(gaps) % PERIOD == Sum(gaps) % PERIOD
    ensures Counted(gaps) == Sum(gaps) <==> AllShort(gaps)
    decreases |gaps|
  {
    if gaps == [] {
    } else {
      var n := |gaps| - 1;
      CountedTicks(gaps[..n]);
      AddLow(Counted(gaps[..n]), Sum(gaps[..n]), gaps[n]);
      assert AllShort(gaps) <==> AllShort(gaps[..n]) && gaps[n] < PERIOD;
    }
  }

  lemma AddLow(x: nat, y: nat, gap: nat)
    requires x % PERIOD == y % PERIOD
    ensures (x + gap % PERIOD) % PERIOD == (y + gap) % PERIOD
  {
  }

  /** The timestamp after polls with these gaps: an unsigned 32-bit word. */
  function Stamp(gaps: seq<nat>): nat {
    Counted(gaps) % WORD
  }

  /** The timestamp against the time that passed. */
  lemma StampIsElapsed(gaps: seq<nat>)
    ensures Stamp(gaps) <= Sum(gaps) && Stamp(gaps) % PERIOD == Sum(gaps) % PERIOD
    ensures Sum(gaps) < WORD ==> (Stamp(gaps) == Sum(gaps) <==> AllShort(gaps))
  {
    hide Sum, Counted, AllShort;
    CountedTicks(gaps);
    WholePeriods(Counted(gaps));
  }

  lemma WholePeriods(n: nat)
    ensures n % WORD % PERIOD == n % PERIOD
  {
  }

  /** The hardware counter: ticks since it was started, and how much time each
      of the following polls lets pass. */
  class Counter {
    var time: nat
    var gaps: seq<nat>

    constructor (time: nat, gaps: seq<nat>)
      ensures this.time == time && this.gaps == gaps
    {
      this.time, this.gaps := time, gaps;
    }

    /** The next poll comes after this time. */
    method Await(gap: nat)
      modifies this`gaps
      ensures gaps == [gap]
    {
      gaps := [gap];
    }

    /** READ_TIMER. */
    method Read() returns (now: nat)
      requires gaps != []
      modifies this
      ensures time == old(time) + old(gaps)[0] && gaps == old(gaps)[1..]
      ensures now == time % PERIOD
    {
      time, gaps := time + gaps[0], gaps[1..];
      now := time % PERIOD;
    }
  }

  class Timer {
    const counter: Counter
    var timestamp: nat
    var lastinc: nat
    ghost var polls: seq<nat>

    constructor (counter: Counter)
      ensures this.counter == counter && Valid() && polls == []
    {
      this.counter := counter;
      timestamp, lastinc, polls := 0, counter.time % PERIOD, [];
    }

    /** polls are the gaps of the polls since the last reset. */
    ghost predicate Valid()
      reads this, counter
    {
      lastinc == counter.time % PERIOD && timestamp == Stamp(polls)
    }

    method ResetTimerMasked()
      requires counter.gaps != []
      modifies this, counter
      ensures Valid() && polls == [] && counter.time == old(counter.time) + old(counter.gaps)[0]
      ensures counter.gaps == old(counter.gaps)[1..]
    {
      lastinc := counter.Read();
      timestamp, polls := 0, [];
    }

    method GetTimerMasked() returns (t: nat)
      requires Valid() && counter.gaps != []
      modifies this, counter
      ensures Valid() && polls == old(polls) + [old(counter.gaps)[0]] && t == Stamp(polls)
      ensures counter.time == old(counter.time) + old(counter.gaps)[0] && counter.gaps == old(counter.gaps)[1..]
    {
      hide Stamp;
      ghost var gap := counter.gaps[0];
      CounterDifference(counter.time, gap);
      NextStamp(polls, gap);
      var now := counter.Read();
      if now >= lastinc {
        timestamp := (timestamp + (now - lastinc)) % WORD;
      } else {
        timestamp := (timestamp + (now + TIMER_LOAD_VAL + 1 - lastinc)) % WORD;
      }
      lastinc := now;
      t := timestamp;
      polls := polls + [gap];
    }

    /** udelay_masked. The result is false when the script of polls has run out
        before the delay is over. */
    method UdelayMasked(usec: nat) returns (done: bool)
      requires usec < WORD && counter.gaps != []
      modifies this, counter
      ensures Valid() && old(counter.gaps)[1..] == polls + counter.gaps
      ensures counter.time == old(counter.time) + old(counter.gaps)[0] + Sum(polls)
      ensures if done then Ends(polls, Ticks(usec)) else counter.gaps == [] && Waits(polls, Ticks(usec))
    {
      hide Stamp;
      var tmo := usec * (CFG_HZ / 1000000) % WORD;
      ResetTimerMasked();
      ghost var script := counter.gaps;
      assert script == polls + counter.gaps;
      while true
        invariant Valid() && script == polls + counter.gaps && Waits(polls, tmo)
        invariant counter.time == old(counter.time) + old(counter.gaps)[0] + Sum(polls)
        decreases |counter.gaps|
      {
        if counter.gaps == [] {
          return false;
        }
        ghost var before := polls;
        OneMore(before, counter.gaps[0]);
        var t := GetTimerMasked();
        assert polls[..|polls| - 1] == before;
        if !(t < tmo) {
          return true;
        }
        MoreWaiting(before, polls, tmo);
      }
    }
  }

  /** The number of ticks that a delay waits for. */
  function Ticks(usec: nat): nat {
    usec * 29 % WORD
  }

  /** All polls found the timestamp below tmo. */
  ghost predicate Waits(polls: seq<nat>, tmo: nat) {
    forall i :: 0 < i <= |polls| ==> Stamp(polls[..i]) < tmo
  }

  /** The last poll was the first that did not. */
  ghost predicate Ends(polls: seq<nat>, tmo: nat) {
    polls != [] && Waits(polls[..|polls| - 1], tmo) && Stamp(polls) >= tmo
  }

  lemma MoreWaiting(before: seq<nat>, polls: seq<nat>, tmo: nat)
    requires polls != [] && before == polls[..|polls| - 1] && Waits(before, tmo) && Stamp(polls) < tmo
    ensures Waits(polls, tmo)
  {
    hide Stamp;
    forall i | 0 < i <= |polls|
      ensures Stamp(polls[..i]) < tmo
    {
      if i < |polls| {
        assert polls[..i] == before[..i];
      } else {
        assert polls[..i] == polls;
      }
    }
  }

  /** The difference of two readings is the gap, up to whole periods. */
  lemma CounterDifference(time: nat, gap: nat)
    ensures var now, last := (time + gap) % PERIOD, time % PERIOD;
            gap % PERIOD == if now >= last then now - last else now + PERIOD - last
  {
  }

  lemma NextStamp(polls: seq<nat>, gap: nat)
    ensures Stamp(polls + [gap]) == (Stamp(polls) + gap % PERIOD) % WORD
  {
    OneMore(polls, gap);
  }

  /** When a delay ends, at least the ticks it waits for have passed. */
  lemma TicksHavePassed(polls: seq<nat>, usec: nat)
    requires Ends(polls, Ticks(usec))
    ensures Sum(polls) >= Ticks(usec)
  {
    hide Sum, Counted, Waits, Ticks;
    StampIsElapsed(polls);
  }

  lemma {:induction false} OnesCount(n: nat)
    ensures Sum(seq(n, _ => 1)) == Counted(seq(n, _ => 1)) == n
  {
    if n > 0 {
      OnesCount(n - 1);
      assert seq(n, _ => 1)[..n - 1] == seq(n - 1, _ => 1);
    }
  }

  /** Polled often enough, a delay ends after exactly these ticks. */
  lemma Quickest(tmo: nat) returns (polls: seq<nat>)
    requires tmo < WORD
    ensures Ends(polls, tmo) && Sum(polls) == tmo
  {
    if tmo == 0 {
      polls := [0];
      OneMore([], 0);
      assert [] + [0] == polls;
    } else {
      hide Sum, Counted;
      polls := seq(tmo, _ => 1);
      OnesCount(tmo);
      var before := polls[..tmo - 1];
      forall i | 0 < i <= |before|
        ensures Stamp(before[..i]) < tmo
      {
        OnesCount(i);
        assert before[..i] == seq(i, _ => 1);
      }
    }
  }

  /** A delay is never cut below usec * 29 ticks if and only if that number fits
      a word. */
  lemma DelayIsLongEnough(usec: nat)
    ensures (forall polls :: Ends(polls, Ticks(usec)) ==> Sum(polls) >= usec * 29) <==> usec * 29 < WORD
  {
    hide Ends, Sum;
    forall polls | Ends(polls, Ticks(usec))
      ensures Sum(polls) >= Ticks(usec)
    {
      TicksHavePassed(polls, usec);
    }
    var quick := Quickest(Ticks(usec));
    assert Ends(quick, Ticks(usec));
  }

  /** But 29 ticks are less than a microsecond: a delay is sure to last usec
      microseconds only if it is no delay at all. */
  lemma DelayIsTooShort(usec: nat)
    ensures (forall polls :: Ends(polls, Ticks(usec)) ==> Sum(polls) * 1000000 >= usec * CFG_HZ) <==> usec == 0
  {
    hide Ends, Sum;
    var quick := Quickest(Ticks(usec));
    assert Ends(quick, Ticks(usec)) && Ticks(usec) <= usec * 29;
  }

  /** The first delay that is cut short: more than 148 seconds end after 13
      ticks. */
  lemma DelayOverflows() returns (polls: seq<nat>)
    ensures Ends(polls, Ticks(148102321)) && Sum(polls) == 13 && 148102320 * 29 < WORD
  {
    hide Ends, Sum;
    assert Ticks(148102321) == 13;
    polls := Quickest(13);
  }
}
