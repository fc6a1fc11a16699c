/** What whole runs of the menu loop keep, on chips with pages of any size. */
module Runs {
  import opened Arith
  import opened Bytes
  import opened Geometry
  import opened FlashChip
  import opened FlashTheory
  import opened FlashRuns
  import opened FlashWrites
  import opened Boot
  import opened Board
  import opened Pipeline
  import opened Menu
  import Timer
  import Confirm

  // The commands that change the flash.

  predicate Erases(sdramTest: bool, s: State, poll: Poll) {
    Chosen(sdramTest, s, poll).EraseAll? && Confirm.Answer(poll.looks) == Some(true)
  }

  predicate StoresLoader(sdramTest: bool, s: State, poll: Poll) {
    Chosen(sdramTest, s, poll).UploadLoader? && LoaderFrom(poll.line).Some?
  }

  predicate StoresUboot(sdramTest: bool, s: State, poll: Poll) {
    Chosen(sdramTest, s, poll).UploadUboot? && UbootFrom(poll.line).Some?
  }

  /** The bytes from lo to hi lie outside the regions that this round may
      store to. */
  predicate Spares(sdramTest: bool, s: State, poll: Poll, lo: nat, hi: nat) {
    (Erases(sdramTest, s, poll) ==> ENV_END <= lo) &&
    (StoresLoader(sdramTest, s, poll) ==> UBOOT_BASE <= lo) &&
    (StoresUboot(sdramTest, s, poll) ==> hi <= UBOOT_BASE || ENV_BASE <= lo)
  }

  /** The regions are made of whole pages. */
  predicate WholePages(d: Device)
    requires d.size >= 1
  {
    UBOOT_BASE % d.size == 0 && ENV_BASE % d.size == 0 && ENV_END % d.size == 0
  }

  /** Stores keep to their region if the regions are made of whole pages, on any
      chip, or if the chip is reliable and at rest. */
  ghost predicate Separate(d: Device, health: Health, busy: nat) {
    Addressable(d) && (WholePages(d) || (health == Reliable && busy == 0))
  }

  lemma PatchSpares(main: seq<byte>, dst: nat, data: seq<byte>, lo: nat, hi: nat)
    requires dst + |data| <= |main| && lo <= hi <= |main| && (hi <= dst || dst + |data| <= lo)
    ensures Patch(main, dst, data)[lo..hi] == main[lo..hi]
  {
  }

  lemma SameButSpares(main: seq<byte>, now: seq<byte>, from: int, to: int, lo: nat, hi: nat)
    requires SameBut(main, now, from, to) && lo <= hi <= |main| && (hi <= from || to <= lo)
    ensures |now| == |main| && now[lo..hi] == main[lo..hi]
  {
  }

  /** The pages of a range lie within whole pages around it. */
  lemma PagesWithin(d: Device, a: nat, e: nat, from: nat, to: nat)
    requires d.size >= 1 && from <= a <= e <= to && from % d.size == 0 && to % d.size == 0
    ensures from <= PageBase(d, a) && PageEnd(d, e) <= to
  {
    DivMod(from, d.size);
    DivMod(to, d.size);
    DivMod(a, d.size);
    DivMod(e + d.size - 1, d.size);
    PageNotBefore(d.size, a / d.size, from / d.size);
    PageNotBefore(d.size, to / d.size, (e + d.size - 1) / d.size);
  }

  lemma StoreSpares(d: Device, health: Health, resting: bool, main: seq<byte>, dst: nat, data: seq<byte>,
                    now: seq<byte>, from: nat, to: nat, lo: nat, hi: nat)
    requires MayBecome(d, health, resting, main, dst, data, now)
    requires from <= dst && dst + |data| <= to
    requires (health == Reliable && resting) || (from % d.size == 0 && to % d.size == 0)
    requires lo <= hi <= |main| && (hi <= from || to <= lo)
    ensures now[lo..hi] == main[lo..hi]
  {
    hide Attempted, Patch, SameBut;
    if health == Reliable && resting {
      PatchSpares(main, dst, data, lo, hi);
    } else {
      PagesWithin(d, dst, dst + |data|, from, to);
      SameButSpares(main, now, PageBase(d, dst), PageEnd(d, dst + |data|), lo, hi);
    }
  }

  /** One round leaves every region alone that it does not store to. */
  lemma StepSpares(d: Device, health: Health, sdramTest: bool, s: State, poll: Poll, s': State, lo: nat, hi: nat)
    requires |s.main| == |s'.main| == Total(d) && lo <= hi <= Total(d)
    ensures Step(d, health, sdramTest, s, poll, s') ==>
      Separate(d, health, s.busy) && Spares(sdramTest, s, poll, lo, hi) ==>
      s'.main[lo..hi] == s.main[lo..hi]
  {
    hide MayBecome, Record, LoaderRecord, LoaderFrom, UbootFrom, Chosen, StartStep, Separate;
    if !(Separate(d, health, s.busy) && Step(d, health, sdramTest, s, poll, s') && Spares(sdramTest, s, poll, lo, hi)) {
      return;
    }
    var resting := s.busy == 0;
    BoundariesOfPages(d, health, s.busy);
    match Chosen(sdramTest, s, poll)
    case UploadLoader =>
      var image := LoaderFrom(poll.line);
      if image.Some? {
        StoreSpares(d, health, resting, s.main, LOADER_BASE, LoaderRecord(image.value), s'.main, LOADER_BASE,
                    UBOOT_BASE, lo, hi);
      }
    case UploadUboot =>
      var image := UbootFrom(poll.line);
      if image.Some? {
        StoreSpares(d, health, resting, s.main, UBOOT_BASE, Record(image.value), s'.main, UBOOT_BASE, ENV_BASE, lo, hi);
      }
    case EraseAll =>
      if Confirm.Answer(poll.looks) == Some(true) {
        StoreSpares(d, health, resting, s.main, LOADER_BASE, Filled(TOTAL_LEN, 0xFF), s'.main, LOADER_BASE, ENV_END,
                    lo, hi);
      }
    case Start => assert s'.main == s.main by { StartKeeps(health, resting, s.main, s'.main, s'.phase); }
    case _ =>
  }

  lemma StartKeeps(health: Health, resting: bool, main: seq<byte>, now: seq<byte>, phase: Phase)
    requires ENV_BASE <= |main| && StartStep(health, resting, main, now, phase)
    ensures now == main
  {
    hide BootResult;
  }

  lemma BoundariesOfPages(d: Device, health: Health, busy: nat)
    requires Separate(d, health, busy)
    ensures d.size > 0 && LOADER_BASE % d.size == 0
    ensures (health == Reliable && busy == 0) ||
      (UBOOT_BASE % d.size == 0 && ENV_BASE % d.size == 0 && ENV_END % d.size == 0)
  {
    DivModUnique(0, d.size, 0, 0);
  }

  /** Region isolation over runs: between two moments of a run, a region stays
      as it is unless an upload to it is accepted or an erase is confirmed. */
  lemma {:induction false} RunSpares(d: Device, health: Health, sdramTest: bool, states: seq<State>, polls: seq<Poll>,
                                     i: nat, j: nat, lo: nat, hi: nat)
    requires |states| == |polls| + 1 && i <= j <= |polls| && lo <= hi <= Total(d)
    requires |states[i].main| == |states[j].main| == Total(d)
    ensures Run(d, health, sdramTest, states, polls) && Separate(d, health, states[i].busy) &&
            (forall k :: i <= k < j ==> Spares(sdramTest, states[k], polls[k], lo, hi)) ==>
      states[j].main[lo..hi] == states[i].main[lo..hi]
    decreases j - i
  {
    hide Spares, Effect, Chosen, Looked, WholePages, Addressable;
    if !(Run(d, health, sdramTest, states, polls) && Separate(d, health, states[i].busy) &&
         forall k :: i <= k < j ==> Spares(sdramTest, states[k], polls[k], lo, hi)) {
      return;
    }
    if i < j {
      assert Step(d, health, sdramTest, states[i], polls[i], states[i + 1]);
      assert |states[i + 1].main| == Total(d) by {
        StepSizes(d, health, sdramTest, states[i], polls[i], states[i + 1]);
      }
      StepSpares(d, health, sdramTest, states[i], polls[i], states[i + 1], lo, hi);
      RunSpares(d, health, sdramTest, states, polls, i + 1, j, lo, hi);
    }
  }

  lemma StepSizes(d: Device, health: Health, sdramTest: bool, s: State, poll: Poll, s': State)
    requires Step(d, health, sdramTest, s, poll, s')
    ensures |s.main| == |s'.main| == Total(d) && ENV_END <= Total(d)
  {
    hide LoaderStep, UbootStep, StartStep, EraseStep, Chosen;
  }

  /** Of the supported devices, only those with pages of 264 bytes keep a
      failing u-boot upload away from the loader: on the others the boundary
      of the regions lies inside a page. */
  lemma BoundaryInPage(dfcode: byte)
    requires DeviceOf(dfcode).Some?
    ensures var d := DeviceOf(dfcode).value;
            d.size >= 1 && (WholePages(d) <==> d.size == 264) && (UBOOT_BASE % d.size == 0 <==> d.size == 264)
            && ENV_BASE % 528 == 0 && ENV_END % 1056 == 0 && UBOOT_BASE == 11352 && ENV_END == 135168 <= Total(d)
  {
  }

  // Starting u-boot in a run.

  /** Once the autoboot flag is cleared it stays so. */
  lemma {:induction false} StaysDisarmed(d: Device, health: Health, sdramTest: bool, states: seq<State>,
                                         polls: seq<Poll>, i: nat, j: nat)
    requires Run(d, health, sdramTest, states, polls) && i <= j <= |polls| && !states[i].autoboot
    ensures !states[j].autoboot
    decreases j - i
  {
    hide Effect, Chosen;
    if i < j {
      assert Step(d, health, sdramTest, states[i], polls[i], states[i + 1]);
      StaysDisarmed(d, health, sdramTest, states, polls, i + 1, j);
    }
  }

  /** It is set for as long as the escape key was not pressed, and no start has
      come back. */
  lemma {:induction false} AutobootStays(d: Device, health: Health, sdramTest: bool, states: seq<State>,
                                         polls: seq<Poll>, j: nat)
    requires Run(d, health, sdramTest, states, polls) && j <= |polls| && states[j].phase.Running?
    ensures states[j].autoboot <==>
      (states[0].autoboot &&
       forall k: nat :: k < j ==> polls[k].key != Some(0x7E) && !Chosen(sdramTest, states[k], polls[k]).Start?)
    decreases j
  {
    hide Effect, Chosen;
    if j > 0 {
      assert Step(d, health, sdramTest, states[j - 1], polls[j - 1], states[j]);
      AutobootStays(d, health, sdramTest, states, polls, j - 1);
    }
  }

  /** u-boot is started by itself at most once in a run, and never after the
      escape key, nor after any other start. */
  lemma AutomaticStartOnce(d: Device, health: Health, sdramTest: bool, states: seq<State>, polls: seq<Poll>, i: nat,
                           j: nat)
    requires Run(d, health, sdramTest, states, polls) && i < j < |polls|
    requires Chosen(sdramTest, states[i], polls[i]).Start? || polls[i].key == Some(AUTOBOOT_ESCAPE)
    ensures !Automatic(states[j], polls[j])
    ensures Chosen(sdramTest, states[j], polls[j]).Start? ==> polls[j].key == Some(0x34)
  {
    hide Effect, Chosen;
    assert Step(d, health, sdramTest, states[i], polls[i], states[i + 1]);
    assert Step(d, health, sdramTest, states[i + 1], polls[i + 1], states[i + 2]);
    StaysDisarmed(d, health, sdramTest, states, polls, i + 1, j);
    KeysDecide(sdramTest, states[j], polls[j]);
  }

  /** Which key leads to which command. */
  lemma KeysDecide(sdramTest: bool, s: State, poll: Poll)
    ensures var c := Chosen(sdramTest, s, poll);
            (c.UploadLoader? <==> poll.key == Some(0x31)) && (c.UploadUboot? <==> poll.key == Some(0x32))
            && (c.Start? <==> Automatic(s, poll) || poll.key == Some(0x34)) && (c.EraseAll? <==> poll.key == Some(0x35))
            && (c.TestRam? <==> sdramTest && poll.key == Some(0x36))
            && (c.Wait? <==> !Automatic(s, poll) && NoKey(poll))
  {
    hide Timer.Stamp;
  }

  /** The ticks of the hardware counter that some rounds let pass. */
  function Gaps(polls: seq<Poll>): seq<nat> {
    seq(|polls|, i requires 0 <= i < |polls| => polls[i].gap)
  }

  /** The rounds from i to j only waited, and in the first of them the menu was
      shown. */
  ghost predicate Idle(sdramTest: bool, states: seq<State>, polls: seq<Poll>, i: nat, j: nat) {
    i <= j < |polls| && |states| == |polls| + 1 && states[i].dispmenu &&
    forall k :: i <= k < j ==> Chosen(sdramTest, states[k], polls[k]) == Wait
  }

  /** The run begins with the round i, or it is the first one after a command. */
  ghost predicate AfterCommand(sdramTest: bool, states: seq<State>, polls: seq<Poll>, i: nat) {
    i <= |polls| <= |states| && (i > 0 ==> Chosen(sdramTest, states[i - 1], polls[i - 1]) != Wait)
  }

  lemma ShownAfterCommand(d: Device, health: Health, sdramTest: bool, s: State, poll: Poll, s': State)
    requires Step(d, health, sdramTest, s, poll, s') && s'.dispmenu
    ensures Chosen(sdramTest, s, poll) != Wait
  {
    hide Effect, Chosen;
  }

  /** While the countdown runs, every round that only waits looks at the timer. */
  lemma WaitingLooks(sdramTest: bool, s: State, poll: Poll)
    requires Chosen(sdramTest, s, poll) == Wait && Armed(s.autoboot, poll)
    ensures Looks(s, poll)
  {
    hide Timer.Stamp;
  }

  lemma GapsMore(polls: seq<Poll>, i: nat, j: nat)
    requires i <= j < |polls|
    ensures Gaps(polls[i..j + 1]) == Gaps(polls[i..j]) + [polls[j].gap]
  {
  }

  lemma LookedNow(s: State, poll: Poll)
    requires Looks(s, poll)
    ensures Looked(s, poll) == (if s.dispmenu then [] else s.gaps) + [poll.gap] && s.autoboot
  {
  }

  /** A round before one that looks at the timer, when the menu was not shown
      between them, looked at it, too. */
  lemma LookedBefore(d: Device, health: Health, sdramTest: bool, s: State, poll: Poll, s': State)
    requires Step(d, health, sdramTest, s, poll, s') && s'.autoboot && !s'.dispmenu && s'.phase.Running?
    ensures Chosen(sdramTest, s, poll) == Wait && Looks(s, poll) && s'.gaps == Looked(s, poll)
  {
    hide Effect, Looks, Looked, Chosen;
    WaitingLooks(sdramTest, s, poll);
  }

  /** A round that looks at the timer finds all that passed since the menu was
      last shown, and there was no command since. */
  lemma {:induction false} CountdownIsTime(d: Device, health: Health, sdramTest: bool, states: seq<State>,
                                           polls: seq<Poll>, j: nat) returns (i: nat)
    requires Run(d, health, sdramTest, states, polls) && j < |polls| && states[0].dispmenu && Looks(states[j], polls[j])
    ensures i <= j && Idle(sdramTest, states, polls, i, j) && Looked(states[j], polls[j]) == Gaps(polls[i..j + 1])
    ensures AfterCommand(sdramTest, states, polls, i)
    decreases j
  {
    hide Step, Chosen, Looks, Looked, Gaps;
    LookedNow(states[j], polls[j]);
    if states[j].dispmenu {
      i := j;
      GapsMore(polls, j, j);
      assert polls[j..j] == [];
      if j > 0 {
        assert Step(d, health, sdramTest, states[j - 1], polls[j - 1], states[j]);
        ShownAfterCommand(d, health, sdramTest, states[j - 1], polls[j - 1], states[j]);
      }
      assert Gaps([]) == [] by { NoGaps(); }
    } else {
      assert Step(d, health, sdramTest, states[j - 1], polls[j - 1], states[j]);
      assert Step(d, health, sdramTest, states[j], polls[j], states[j + 1]);
      StepRuns(d, health, sdramTest, states[j], polls[j], states[j + 1]);
      LookedBefore(d, health, sdramTest, states[j - 1], polls[j - 1], states[j]);
      i := CountdownIsTime(d, health, sdramTest, states, polls, j - 1);
      GapsMore(polls, i, j);
    }
  }

  lemma NoGaps()
    ensures Gaps([]) == []
  {
  }

  lemma StepRuns(d: Device, health: Health, sdramTest: bool, s: State, poll: Poll, s': State)
    requires Step(d, health, sdramTest, s, poll, s')
    ensures s.phase.Running?
  {
    hide Effect;
  }

  /** The autoboot delay. A round that looks at the timer starts u-boot only if
      at least the delay has passed since the menu was last shown, which is at
      the start and after each command; and it does so as soon as that is the
      case, unless the timer has lost ticks because two looks at it were 65536
      ticks apart. */
  lemma AutomaticStartWaits(d: Device, health: Health, sdramTest: bool, states: seq<State>, polls: seq<Poll>, j: nat)
    returns (i: nat)
    requires Run(d, health, sdramTest, states, polls) && j < |polls| && states[0].dispmenu && Looks(states[j], polls[j])
    ensures Idle(sdramTest, states, polls, i, j) && AfterCommand(sdramTest, states, polls, i)
    ensures var gaps, starts := Gaps(polls[i..j + 1]), Chosen(sdramTest, states[j], polls[j]).Start?;
            (starts ==> Timer.Sum(gaps) >= AUTOBOOT_DELAY)
            && (Timer.AllShort(gaps) && Timer.Sum(gaps) < Timer.WORD ==>
                  (starts <==> Timer.Sum(gaps) >= AUTOBOOT_DELAY))
  {
    hide Step, Idle, AfterCommand, Gaps, Chosen, Looked, Timer.Sum, Timer.Stamp, Timer.AllShort;
    i := CountdownIsTime(d, health, sdramTest, states, polls, j);
    Timer.StampIsElapsed(Gaps(polls[i..j + 1]));
    KeysDecide(sdramTest, states[j], polls[j]);
    NoKeyIsNoCommand(polls[j]);
  }

  lemma NoKeyIsNoCommand(poll: Poll)
    requires NoKey(poll)
    ensures poll.key != Some(0x34)
  {
  }

  /** The same from the keys alone: as long as the escape key was not pressed and
      nothing was started, every round without a key is one that looks. */
  lemma AutobootDecides(d: Device, health: Health, sdramTest: bool, states: seq<State>, polls: seq<Poll>, j: nat)
    returns (i: nat)
    requires Run(d, health, sdramTest, states, polls) && j < |polls| && states[0].dispmenu && states[0].autoboot
    requires polls[j].key == None || polls[j].key == Some(0)
    requires forall k: nat :: k < j ==> polls[k].key != Some(0x7E) && !Chosen(sdramTest, states[k], polls[k]).Start?
    ensures Idle(sdramTest, states, polls, i, j) && AfterCommand(sdramTest, states, polls, i)
    ensures var gaps, starts := Gaps(polls[i..j + 1]), Chosen(sdramTest, states[j], polls[j]).Start?;
            (starts ==> Timer.Sum(gaps) >= AUTOBOOT_DELAY)
            && (Timer.AllShort(gaps) && Timer.Sum(gaps) < Timer.WORD ==>
                  (starts <==> Timer.Sum(gaps) >= AUTOBOOT_DELAY))
  {
    hide Step, Chosen, Idle, AfterCommand, Gaps, Timer.Sum, Timer.AllShort;
    assert Step(d, health, sdramTest, states[j], polls[j], states[j + 1]);
    StepRuns(d, health, sdramTest, states[j], polls[j], states[j + 1]);
    AutobootStays(d, health, sdramTest, states, polls, j);
    i := AutomaticStartWaits(d, health, sdramTest, states, polls, j);
  }

  // The regions and the keys.

  /** The loader only changes when '1' or '5' is pressed, and u-boot only when
      '2' or '5' is, wherever stores keep to their region. */
  lemma RegionsNeedKeys(d: Device, health: Health, sdramTest: bool, states: seq<State>, polls: seq<Poll>, i: nat,
                        j: nat)
    requires Run(d, health, sdramTest, states, polls) && i <= j <= |polls| && Separate(d, health, states[i].busy)
    requires |states[i].main| == |states[j].main| == Total(d) && ENV_END <= Total(d)
    ensures (forall k :: i <= k < j ==> polls[k].key != Some(0x31) && polls[k].key != Some(0x35)) ==>
      states[j].main[LOADER_BASE..UBOOT_BASE] == states[i].main[LOADER_BASE..UBOOT_BASE]
    ensures (forall k :: i <= k < j ==> polls[k].key != Some(0x32) && polls[k].key != Some(0x35)) ==>
      states[j].main[UBOOT_BASE..ENV_BASE] == states[i].main[UBOOT_BASE..ENV_BASE]
  {
    hide Step, Chosen, Separate, LoaderFrom, UbootFrom;
    forall k | i <= k < j
      ensures polls[k].key != Some(0x31) && polls[k].key != Some(0x35) ==>
        Spares(sdramTest, states[k], polls[k], LOADER_BASE, UBOOT_BASE)
      ensures polls[k].key != Some(0x32) && polls[k].key != Some(0x35) ==>
        Spares(sdramTest, states[k], polls[k], UBOOT_BASE, ENV_BASE)
    {
      KeysDecide(sdramTest, states[k], polls[k]);
    }
    RunSpares(d, health, sdramTest, states, polls, i, j, LOADER_BASE, UBOOT_BASE);
    RunSpares(d, health, sdramTest, states, polls, i, j, UBOOT_BASE, ENV_BASE);
  }

  lemma UploadIsHeld(d: Device, sdramTest: bool, s: State, poll: Poll, s': State)
    requires Step(d, Reliable, sdramTest, s, poll, s') && StoresUboot(sdramTest, s, poll) && s.busy == 0
    ensures Holds(s'.main, UbootFrom(poll.line).value)
  {
    hide UbootFrom, Record, Chosen;
    var image := UbootFrom(poll.line).value;
    SliceOfPatch(s.main, UBOOT_BASE, Record(image));
  }

  lemma SameRegionHolds(main: seq<byte>, now: seq<byte>, image: seq<byte>)
    requires Holds(main, image) && |now| == |main| && now[UBOOT_BASE..ENV_BASE] == main[UBOOT_BASE..ENV_BASE]
    ensures Holds(now, image)
  {
    hide Record;
    var end := UBOOT_BASE + UBOOT_HDR_SIZE + |image|;
    SliceOfSlice(main, UBOOT_BASE, ENV_BASE, UBOOT_BASE, end);
    SliceOfSlice(now, UBOOT_BASE, ENV_BASE, UBOOT_BASE, end);
  }

  /** A reliable chip that is at rest once is at rest before every round. */
  lemma {:induction false} StaysAtRest(d: Device, sdramTest: bool, states: seq<State>, polls: seq<Poll>, i: nat)
    requires Run(d, Reliable, sdramTest, states, polls) && i <= |polls| && states[0].busy == 0
    ensures states[i].busy == 0
  {
    hide Effect, Chosen, Looked;
    if i > 0 {
      StaysAtRest(d, sdramTest, states, polls, i - 1);
      assert Step(d, Reliable, sdramTest, states[i - 1], polls[i - 1], states[i]);
    }
  }

  /** Over whole runs on a reliable chip: what a start boots is the content of
      the last u-boot image that was accepted, whatever loader uploads, failed
      uploads and failed starts came in between. */
  lemma BootsLastUpload(d: Device, sdramTest: bool, states: seq<State>, polls: seq<Poll>, i: nat, j: nat,
                        data: seq<byte>)
    requires Addressable(d) && Run(d, Reliable, sdramTest, states, polls) && i < j < |polls| && states[0].busy == 0
    requires StoresUboot(sdramTest, states[i], polls[i])
    requires forall k :: i < k < j ==>
      !StoresUboot(sdramTest, states[k], polls[k]) && !Erases(sdramTest, states[k], polls[k])
    requires Chosen(sdramTest, states[j], polls[j]).Start?
    ensures states[j + 1].phase == Started(data) <==> Bootable(UbootFrom(polls[i].line).value, data)
  {
    hide Effect, UbootFrom, Chosen, Bootable, BootResult, Holds, LoaderFrom;
    var image := UbootFrom(polls[i].line).value;
    StaysAtRest(d, sdramTest, states, polls, i);
    StaysAtRest(d, sdramTest, states, polls, i + 1);
    StaysAtRest(d, sdramTest, states, polls, j);
    assert Step(d, Reliable, sdramTest, states[i], polls[i], states[i + 1]);
    assert Step(d, Reliable, sdramTest, states[j], polls[j], states[j + 1]);
    StepSizes(d, Reliable, sdramTest, states[i], polls[i], states[i + 1]);
    StepSizes(d, Reliable, sdramTest, states[j], polls[j], states[j + 1]);
    UploadIsHeld(d, sdramTest, states[i], polls[i], states[i + 1]);
    RunSpares(d, Reliable, sdramTest, states, polls, i + 1, j, UBOOT_BASE, ENV_BASE);
    SameRegionHolds(states[i + 1].main, states[j].main, image);
    BootOfHeld(states[j].main, image, data);
    StartDecides(d, sdramTest, states[j], polls[j], states[j + 1], data);
  }

  lemma StartDecides(d: Device, sdramTest: bool, s: State, poll: Poll, s': State, data: seq<byte>)
    requires ENV_BASE <= |s.main|
    ensures Step(d, Reliable, sdramTest, s, poll, s') && Chosen(sdramTest, s, poll).Start? && s.busy == 0 ==>
      (s'.phase == Started(data) <==> BootResult(s.main[UBOOT_BASE..ENV_BASE]) == Boots(data))
  {
    hide Chosen, BootResult;
  }
}
