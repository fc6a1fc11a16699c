/** The question before the flash is erased: the line is drained first, and
    then an answer has to come in time. */
module Confirm {
  import opened Bytes
  import opened Timer

  const KEY_YES: byte := 0x79
  const MAX_DRAINED := 32768
  const QUIET_TIME := CFG_HZ
  const ANSWER_TIME := 5 * CFG_HZ

  /** One look at the line: the ticks that pass until the timer is read, and the
      character that waits then, if there is one. */
  datatype Look = Look(gap: nat, key: Option<byte>)

  /** What is left of the looks when the line is drained, when n characters were
      thrown away and the timer was read with these gaps since the last one. */
  function Drain(looks: seq<Look>, n: nat, gaps: seq<nat>): (rest: Option<seq<Look>>)
    ensures rest.Some? ==> |rest.value| < |looks|
  {
    if looks == [] then None
    else if Stamp(gaps + [looks[0].gap]) >= QUIET_TIME || n >= MAX_DRAINED then Some(looks[1..])
    else if looks[0].key.Some? then Drain(looks[1..], n + 1, [])
    else Drain(looks[1..], n, gaps + [looks[0].gap])
  }

  /** Is the answer, to a question asked when the gaps began, a yes? */
  function Reply(looks: seq<Look>, gaps: seq<nat>): Option<bool> {
    if looks == [] then None
    else if Stamp(gaps + [looks[0].gap]) >= ANSWER_TIME then Some(false)
    else if looks[0].key.Some? then Some(looks[0].key.value == KEY_YES)
    else Reply(looks[1..], gaps + [looks[0].gap])
  }

  /** The answer that these looks lead to; None if they end before. */
  function Answer(looks: seq<Look>): Option<bool> {
    match Drain(looks, 0, [])
    case None => None
    case Some(rest) => Reply(rest, [])
  }

  // The loops.

  /** reset_timer_masked, some time after the last poll. */
  method Restart(timer: Timer)
    modifies timer, timer.counter
    ensures timer.Valid() && timer.polls == []
  {
    var pause: int := *;
    timer.counter.Await(if pause < 0 then 0 else pause);
    timer.ResetTimerMasked();
  }

  /** drain_uart. */
  method DrainUart(timer: Timer, looks: seq<Look>) returns (rest: Option<seq<Look>>)
    modifies timer, timer.counter
    ensures timer.Valid() && rest == Drain(looks, 0, [])
  {
    hide Stamp;
    var n, i := 0, 0;
    Restart(timer);
    assert looks[0..] == looks;
    while i < |looks|
      invariant timer.Valid() && i <= |looks|
      invariant Drain(looks, 0, []) == Drain(looks[i..], n, timer.polls)
    {
      timer.counter.Await(looks[i].gap);
      var t := timer.GetTimerMasked();
      if !(t < QUIET_TIME && n < MAX_DRAINED) {
        return Some(looks[i + 1..]);
      }
      if looks[i].key.Some? {
        n := n + 1;
        Restart(timer);
      }
      i := i + 1;
    }
    rest := None;
  }

  /** confirm_yes. */
  method ConfirmYes(timer: Timer, looks: seq<Look>) returns (yes: Option<bool>)
    modifies timer, timer.counter
    ensures timer.Valid() && yes == Answer(looks)
  {
    hide Stamp, Drain;
    var drained := DrainUart(timer, looks);
    if drained == None {
      return None;
    }
    var rest, i := drained.value, 0;
    Restart(timer);
    assert rest[0..] == rest;
    while i < |rest|
      invariant timer.Valid() && i <= |rest|
      invariant Reply(rest, []) == Reply(rest[i..], timer.polls)
    {
      timer.counter.Await(rest[i].gap);
      var t := timer.GetTimerMasked();
      if t >= ANSWER_TIME {
        return Some(false);
      }
      if rest[i].key.Some? {
        return Some(rest[i].key.value == KEY_YES);
      }
      i := i + 1;
    }
    yes := None;
  }

  // When it is a yes.

  /** The number of characters that were found. */
  function Found(looks: seq<Look>): (n: nat)
    ensures n <= |looks|
  {
    if looks == [] then 0
    else Found(looks[..|looks| - 1]) + (if looks[|looks| - 1].key.Some? then 1 else 0)
  }

  /** The times between the looks since the last character. */
  function SinceLast(looks: seq<Look>): seq<nat> {
    if looks == [] || looks[|looks| - 1].key.Some? then []
    else SinceLast(looks[..|looks| - 1]) + [looks[|looks| - 1].gap]
  }

  function GapsOf(looks: seq<Look>): (gaps: seq<nat>)
    ensures |gaps| == |looks|
  {
    seq(|looks|, i requires 0 <= i < |looks| => looks[i].gap)
  }

  /** At the look k the line has been quiet long enough, or enough was thrown
      away. */
  predicate Drained(looks: seq<Look>, k: nat)
    requires k < |looks|
  {
    Stamp(SinceLast(looks[..k]) + [looks[k].gap]) >= QUIET_TIME || Found(looks[..k]) >= MAX_DRAINED
  }

  /** The look k is the first at which that is so. */
  ghost predicate DrainsAt(looks: seq<Look>, k: nat) {
    k < |looks| && Drained(looks, k) && forall i: nat :: i < k ==> !Drained(looks, i)
  }

  lemma OneLookMore(looks: seq<Look>, i: nat)
    requires i < |looks|
    ensures looks[i..][0] == looks[i] && looks[i..][1..] == looks[i + 1..]
    ensures Found(looks[..i + 1]) == Found(looks[..i]) + (if looks[i].key.Some? then 1 else 0)
    ensures SinceLast(looks[..i + 1])
         == if looks[i].key.Some? then [] else SinceLast(looks[..i]) + [looks[i].gap]
  {
    var front := looks[..i + 1];
    assert front[..i] == looks[..i] && front[|front| - 1] == looks[i];
  }

  lemma {:induction false} DrainFrom(looks: seq<Look>, i: nat) returns (k: nat)
    requires i <= |looks| && forall j: nat :: j < i ==> !Drained(looks, j)
    ensures var r := Drain(looks[i..], Found(looks[..i]), SinceLast(looks[..i]));
            if r.Some? then DrainsAt(looks, k) && r.value == looks[k + 1..]
            else forall j: nat :: j < |looks| ==> !Drained(looks, j)
    decreases |looks| - i
  {
    hide Stamp, Found, SinceLast;
    k := i;
    if i < |looks| {
      OneLookMore(looks, i);
      if !Drained(looks, i) {
        k := DrainFrom(looks, i + 1);
      }
    }
  }

  /** The look j is the first that finds a character, and none before it, nor it
      itself, found the time over. */
  ghost predicate RepliesAt(looks: seq<Look>, j: nat) {
    j < |looks| && looks[j].key.Some? && (forall i: nat :: i < j ==> looks[i].key.None?) && AllInTime(looks, j + 1)
  }

  ghost predicate AllInTime(looks: seq<Look>, n: nat)
    requires n <= |looks|
  {
    forall i: nat :: i < n ==> InTime(looks, i)
  }

  predicate InTime(looks: seq<Look>, i: nat)
    requires i < |looks|
  {
    Stamp(GapsOf(looks[..i + 1])) < ANSWER_TIME
  }

  ghost predicate SaysYes(looks: seq<Look>, j: nat) {
    RepliesAt(looks, j) && looks[j].key == Some(0x79)
  }

  lemma GapsMore(looks: seq<Look>, i: nat)
    requires i < |looks|
    ensures GapsOf(looks[..i + 1]) == GapsOf(looks[..i]) + [looks[i].gap]
  {
  }

  lemma {:induction false} ReplyFrom(looks: seq<Look>, i: nat) returns (k: nat)
    requires i <= |looks|
    requires forall j: nat :: j < i ==> looks[j].key.None? && InTime(looks, j)
    ensures if Reply(looks[i..], GapsOf(looks[..i])) == Some(true) then SaysYes(looks, k)
            else forall j: nat :: !SaysYes(looks, j)
    decreases |looks| - i
  {
    hide Stamp, GapsOf;
    k := i;
    if i == |looks| {
      return;
    }
    OneLookMore(looks, i);
    GapsMore(looks, i);
    if looks[i].key.None? && InTime(looks, i) {
      k := ReplyFrom(looks, i + 1);
    } else {
      forall j: nat | RepliesAt(looks, j)
        ensures j == i && InTime(looks, i)
      {
        assert i <= j ==> InTime(looks, i);
      }
    }
  }

  /** The line is drained at the look k, and the look j after it finds a yes. */
  ghost predicate YesAt(looks: seq<Look>, k: nat, j: nat) {
    DrainsAt(looks, k) && SaysYes(looks[k + 1..], j)
  }

  /** An erase is confirmed exactly when the first character that comes in time,
      after the line was drained, is a 'y'. */
  lemma ConfirmDecides(looks: seq<Look>)
    ensures Answer(looks) == Some(true) <==> exists k: nat, j: nat :: YesAt(looks, k, j)
  {
    hide Drain, Reply, SaysYes, Drained;
    assert looks[0..] == looks && looks[..0] == [];
    var k := DrainFrom(looks, 0);
    if Drain(looks, 0, []).Some? {
      var rest := looks[k + 1..];
      assert rest[0..] == rest && rest[..0] == [] && GapsOf([]) == [];
      var j := ReplyFrom(rest, 0);
      assert Reply(rest, []) == Some(true) ==> YesAt(looks, k, j);
      forall k': nat, j': nat | YesAt(looks, k', j')
        ensures k' == k && SaysYes(rest, j')
      {
      }
    }
  }

  // Looks and time.

  /** When the line counts as drained, it was quiet for a second, or 32768
      characters were thrown away; and never more than these. */
  lemma DrainedIsQuiet(looks: seq<Look>, k: nat)
    requires DrainsAt(looks, k)
    ensures Found(looks[..k]) <= 32768
    ensures Found(looks[..k]) < 32768 ==> Sum(SinceLast(looks[..k]) + [looks[k].gap]) >= CFG_HZ
  {
    hide Stamp, Sum, SinceLast;
    StampIsElapsed(SinceLast(looks[..k]) + [looks[k].gap]);
    if k > 0 {
      OneLookMore(looks, k - 1);
      assert !Drained(looks, k - 1);
    }
  }

  /** With two looks never a period of the counter apart, the timer shows that
      there is still time exactly when less than five seconds have passed. */
  lemma {:induction false} InTimeIsTime(looks: seq<Look>, n: nat)
    requires n <= |looks| && AllShort(GapsOf(looks[..n]))
    ensures AllInTime(looks, n) <==> Sum(GapsOf(looks[..n])) < 5 * CFG_HZ
  {
    hide Stamp, Sum, GapsOf;
    if n == 0 {
      NoTime(GapsOf(looks[..0]));
      return;
    }
    var before, gaps := GapsOf(looks[..n - 1]), GapsOf(looks[..n]);
    GapsMore(looks, n - 1);
    ShortBefore(before, gaps, looks[n - 1].gap);
    OneMore(before, looks[n - 1].gap);
    StampIsElapsed(gaps);
    InTimeIsTime(looks, n - 1);
    assert AllInTime(looks, n) <==> AllInTime(looks, n - 1) && InTime(looks, n - 1);
  }

  lemma ShortBefore(before: seq<nat>, gaps: seq<nat>, gap: nat)
    requires gaps == before + [gap] && AllShort(gaps)
    ensures AllShort(before) && gap < PERIOD
  {
    assert gap == gaps[|before|];
    assert forall i :: 0 <= i < |before| ==> before[i] == gaps[i];
  }

  lemma NoTime(gaps: seq<nat>)
    requires gaps == []
    ensures Sum(gaps) == 0
  {
  }

  // The question is always answered.

  /** The timer goes on between two looks, and never loses ticks. */
  predicate Lively(looks: seq<Look>) {
    forall i :: 0 <= i < |looks| ==> 0 < looks[i].gap < PERIOD
  }

  lemma TimerAdvances(looks: seq<Look>, gaps: seq<nat>)
    requires looks != [] && Lively(looks) && Stamp(gaps) < ANSWER_TIME
    ensures Stamp(gaps + [looks[0].gap]) > Stamp(gaps) && Lively(looks[1..]) && Stamp([]) == 0
  {
    NextStamp(gaps, looks[0].gap);
  }

  lemma {:induction false} DrainEnds(looks: seq<Look>, n: nat, gaps: seq<nat>, most: nat)
    requires n <= MAX_DRAINED && Stamp(gaps) < QUIET_TIME && Lively(looks) && most <= |looks|
    requires most == (MAX_DRAINED - n) * QUIET_TIME + (QUIET_TIME - Stamp(gaps))
    ensures var r := Drain(looks, n, gaps); r.Some? && |r.value| >= |looks| - most && Lively(r.value)
    decreases |looks|
  {
    hide Stamp, Lively;
    TimerAdvances(looks, gaps);
    var more := gaps + [looks[0].gap];
    if Stamp(more) >= QUIET_TIME || n >= MAX_DRAINED {
    } else if looks[0].key.Some? {
      DrainEnds(looks[1..], n + 1, [], most - (QUIET_TIME - Stamp(gaps)));
    } else {
      DrainEnds(looks[1..], n, more, most - (Stamp(more) - Stamp(gaps)));
    }
  }

  lemma {:induction false} ReplyEnds(looks: seq<Look>, gaps: seq<nat>)
    requires Stamp(gaps) < ANSWER_TIME && Lively(looks) && |looks| >= ANSWER_TIME - Stamp(gaps)
    ensures Reply(looks, gaps).Some?
    decreases |looks|
  {
    hide Stamp, Lively;
    TimerAdvances(looks, gaps);
    var more := gaps + [looks[0].gap];
    if Stamp(more) < ANSWER_TIME && looks[0].key.None? {
      ReplyEnds(looks[1..], more);
    }
  }

  /** Whatever the line does, the question is settled after so many looks. */
  lemma AnswerComes(looks: seq<Look>)
    requires Lively(looks) && |looks| >= (MAX_DRAINED + 1) * QUIET_TIME + ANSWER_TIME
    ensures Answer(looks).Some?
  {
    hide Drain, Reply, Lively;
    assert Stamp([]) == 0;
    DrainEnds(looks, 0, [], (MAX_DRAINED + 1) * QUIET_TIME);
    ReplyEnds(Drain(looks, 0, []).value, []);
  }
}
