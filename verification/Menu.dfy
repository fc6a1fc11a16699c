/** The menu loop: which command each key press leads to, and what whole runs
    of commands do to the regions of the flash. */
module Menu {
  import opened Bytes
  import opened Geometry
  import opened FlashChip
  import opened FlashTheory
  import opened FlashWrites
  import opened Boot
  import opened Board
  import opened Xmodem
  import XmodemReceiver
  import Timer
  import Confirm

  const AUTOBOOT_ESCAPE: byte := 0x7E
  const KEY_LOADER: byte := 0x31
  const KEY_UBOOT: byte := 0x32
  const KEY_START: byte := 0x34
  const KEY_ERASE: byte := 0x35
  const KEY_TEST: byte := 0x36

  const AUTOBOOT_DELAY := Timer.CFG_HZ

  /** What one round of the loop meets: a key, the ticks of the hardware counter
      that pass until the timer is looked at, and, should the command ask for
      them, the line that follows and what the question before an erase meets. */
  datatype Poll = Poll(key: Option<byte>, gap: nat, line: seq<byte>, looks: seq<Confirm.Look>)

  datatype Command = Wait | UploadLoader | UploadUboot | Start | EraseAll | TestRam | Invalid

  /** Running: the loop goes on. Started: u-boot has taken over. Stuck: an upload
      waits for a line that fell silent, or a question for looks that are over. */
  datatype Phase = Running | Started(image: seq<byte>) | Stuck

  /** busy: what the chip is still busy with. dispmenu: the menu is to be shown,
      which restarts the countdown. gaps: the times between the looks at the
      timer since it was shown. */
  datatype State = State(main: seq<byte>, busy: nat, autoboot: bool, dispmenu: bool, gaps: seq<nat>, phase: Phase)

  /** The autoboot flag after the key of this round was looked at. */
  predicate Armed(autoboot: bool, poll: Poll) {
    autoboot && poll.key != Some(AUTOBOOT_ESCAPE)
  }

  predicate NoKey(poll: Poll) {
    poll.key == None || poll.key == Some(0) || poll.key == Some(AUTOBOOT_ESCAPE)
  }

  /** The timer is only looked at when there is no key and autoboot is on. */
  predicate Looks(s: State, poll: Poll) {
    NoKey(poll) && Armed(s.autoboot, poll)
  }

  /** The times between the looks at the timer, after this round. */
  function Looked(s: State, poll: Poll): seq<nat> {
    (if s.dispmenu then [] else s.gaps) + (if Looks(s, poll) then [poll.gap] else [])
  }

  /** u-boot is started without being asked for: the timer, which may have lost
      ticks, has reached the delay. */
  predicate Automatic(s: State, poll: Poll) {
    Looks(s, poll) && Timer.Stamp(Looked(s, poll)) >= AUTOBOOT_DELAY
  }

  function CommandOf(sdramTest: bool, key: byte): Command {
    if key == 0 then Wait
    else if key == KEY_LOADER then UploadLoader
    else if key == KEY_UBOOT then UploadUboot
    else if key == KEY_START then Start
    else if key == KEY_ERASE then EraseAll
    else if key == KEY_TEST && sdramTest then TestRam
    else Invalid
  }

  function Chosen(sdramTest: bool, s: State, poll: Poll): Command {
    if Automatic(s, poll) then Start
    else if NoKey(poll) then Wait
    else CommandOf(sdramTest, poll.key.value)
  }

  /** What storing data at dst may make of the flash. */
  ghost predicate MayBecome(d: Device, health: Health, resting: bool, main: seq<byte>, dst: nat, data: seq<byte>,
                            now: seq<byte>) {
    d.size >= 1 && |now| == |main| && dst + |data| <= |main| && Confined(d, main, now, dst, |data|) &&
    (health == Reliable && resting ==> now == Patch(main, dst, data)) &&
    (health != Worn && resting ==> exists p :: Attempted(d, main, dst, data, now, p))
  }

  /** The image that an upload accepts from the line; None if it does not. */
  function LoaderFrom(line: seq<byte>): (r: Option<seq<byte>>)
    ensures r.Some? ==> MIN_IMAGE_SIZE < |r.value| < LOADER_LEN
  {
    var received := Receive(line, 1, LOADER_LEN);
    if received.Complete? && LoaderImageOk(received.data) then Some(received.data) else None
  }

  function UbootFrom(line: seq<byte>): (r: Option<seq<byte>>)
    ensures r.Some? ==> MIN_IMAGE_SIZE < |r.value| <= UBOOT_LEN - UBOOT_HDR_SIZE
  {
    var received := Receive(line, 1, UBOOT_LEN - UBOOT_HDR_SIZE);
    if received.Complete? && UbootImageOk(received.data) then Some(received.data) else None
  }

  /** An upload of an image that is stored at dst as data, or not accepted. */
  ghost predicate UploadStep(d: Device, health: Health, resting: bool, main: seq<byte>, dst: nat,
                             data: Option<seq<byte>>, silent: bool, now: seq<byte>, phase: Phase) {
    if data.Some? then MayBecome(d, health, resting, main, dst, data.value, now) && phase == Running
    else now == main && phase == if silent then Stuck else Running
  }

  ghost predicate LoaderStep(d: Device, health: Health, resting: bool, main: seq<byte>, line: seq<byte>,
                             now: seq<byte>, phase: Phase) {
    var image := LoaderFrom(line);
    UploadStep(d, health, resting, main, LOADER_BASE, if image.Some? then Some(LoaderRecord(image.value)) else None,
               Receive(line, 1, LOADER_LEN).Waiting?, now, phase)
  }

  ghost predicate UbootStep(d: Device, health: Health, resting: bool, main: seq<byte>, line: seq<byte>,
                            now: seq<byte>, phase: Phase) {
    var image := UbootFrom(line);
    UploadStep(d, health, resting, main, UBOOT_BASE, if image.Some? then Some(Record(image.value)) else None,
               Receive(line, 1, UBOOT_LEN - UBOOT_HDR_SIZE).Waiting?, now, phase)
  }

  ghost predicate StartStep(health: Health, resting: bool, main: seq<byte>, now: seq<byte>, phase: Phase)
    requires ENV_BASE <= |main|
  {
    var outcome := BootResult(main[UBOOT_BASE..ENV_BASE]);
    now == main &&
    match phase
    case Running => health == Reliable && resting ==> !outcome.Boots?
    case Started(image) => outcome == Boots(image)
    case Stuck => false
  }

  ghost predicate EraseStep(d: Device, health: Health, resting: bool, main: seq<byte>, answer: Option<bool>,
                            now: seq<byte>, phase: Phase) {
    phase == (if answer.None? then Stuck else Running) &&
    if answer == Some(true) then MayBecome(d, health, resting, main, LOADER_BASE, Filled(TOTAL_LEN, 0xFF), now)
    else now == main
  }

  /** What a command does to the flash, and how the loop goes on; resting is
      whether the chip was at rest when the command came. */
  ghost predicate Effect(d: Device, health: Health, resting: bool, c: Command, poll: Poll, main: seq<byte>,
                         now: seq<byte>, phase: Phase) {
    |main| == |now| == Total(d) && ENV_END <= Total(d) &&
    match c
    case UploadLoader => LoaderStep(d, health, resting, main, poll.line, now, phase)
    case UploadUboot => UbootStep(d, health, resting, main, poll.line, now, phase)
    case Start => StartStep(health, resting, main, now, phase)
    case EraseAll => EraseStep(d, health, resting, main, Confirm.Answer(poll.looks), now, phase)
    case _ => now == main && phase == Running
  }

  /** One round of the loop. A reliable chip that was at rest is so again. */
  ghost predicate Step(d: Device, health: Health, sdramTest: bool, s: State, poll: Poll, s': State) {
    var c := Chosen(sdramTest, s, poll);
    s.phase == Running && Effect(d, health, s.busy == 0, c, poll, s.main, s'.main, s'.phase) &&
    (health == Reliable && s.busy == 0 ==> s'.busy == 0) &&
    (c == Wait ==> s'.gaps == Looked(s, poll)) && s'.dispmenu == (c != Wait && s'.phase.Running?) &&
    s'.autoboot == (Armed(s.autoboot, poll) && !(c.Start? && s'.phase.Running?))
  }

  /** A run of the loop, from state to state. */
  ghost predicate Run(d: Device, health: Health, sdramTest: bool, states: seq<State>, polls: seq<Poll>) {
    |states| == |polls| + 1 &&
    forall i :: 0 <= i < |polls| ==> Step(d, health, sdramTest, states[i], polls[i], states[i + 1])
  }

  lemma StoreMayBecome(d: Device, health: Health, resting: bool, main: seq<byte>, dst: nat, data: seq<byte>,
                       rep: Report, now: seq<byte>, p: nat)
    requires d.size >= 1 && StoreOutcome(d, health, resting, main, dst, data, rep, now, p) && dst + |data| <= Total(d)
    ensures MayBecome(d, health, resting, main, dst, data, now)
  {
    hide Attempted, Patch, Confined;
    if health != Worn && resting {
      assert Attempted(d, main, dst, data, now, p);
    }
  }

  class Menu {
    const board: Board
    const timer: Timer.Timer
    const sdramTest: bool
    var autoboot: bool
    var dispmenu: bool
    var phase: Phase

    constructor (board: Board, timer: Timer.Timer, sdramTest: bool)
      ensures this.board == board && this.timer == timer && this.sdramTest == sdramTest
      ensures autoboot && dispmenu && phase == Running
    {
      this.board, this.timer, this.sdramTest := board, timer, sdramTest;
      autoboot, dispmenu, phase := true, true, Running;
    }

    ghost predicate Valid()
      reads this, board, board.flash, board.flash.chip, timer, timer.counter
    {
      board.Valid() && timer.Valid()
    }

    ghost function Current(): State
      reads this, board, board.flash, board.flash.chip, timer
    {
      State(board.flash.chip.st.main, board.flash.chip.st.busy, autoboot, dispmenu, timer.polls, phase)
    }

    /** A reliable chip is at rest, and the chip got no command while it was
        busy, if that was so in the trace before. */
    ghost predicate Careful(trace: seq<Event>)
      reads this, board, board.flash, board.flash.chip
    {
      (board.flash.chip.health == Reliable ==> board.flash.chip.st.busy == 0) &&
      (Disciplined(board.flash.chip.dev, trace) ==> Disciplined(board.flash.chip.dev, board.flash.chip.trace))
    }

    method DoUploadLoader(line: seq<byte>, ghost mem: seq<byte>) returns (ghost mem': seq<byte>)
      requires ENV_END <= Total(board.flash.chip.dev)
      requires Valid() && |mem| == RAM_SIZE && Memory(board.ram, mem)
      modifies this`phase, board.flash, board.flash.chip, board.ram
      ensures Valid() && |mem'| == RAM_SIZE && Memory(board.ram, mem')
      ensures old(board.flash.chip.st.busy) == 0 ==> Careful(old(board.flash.chip.trace))
      ensures !phase.Started?
      ensures LoaderStep(board.flash.chip.dev, board.flash.chip.health, old(board.flash.chip.st.busy) == 0,
                         old(board.flash.chip.st.main), line, board.flash.chip.st.main, phase)
    {
      hide Made, Memory, Patch, Receive, LoaderImageOk, LoaderRecord, StoreOutcome, MayBecome, Disciplined;
      var uart := new XmodemReceiver.Uart(line);
      var res;
      ghost var failed, main, image := 0, board.flash.chip.st.main, LoaderFrom(line);
      ghost var d, health, resting := board.flash.chip.dev, board.flash.chip.health, board.flash.chip.st.busy == 0;
      res, mem', failed := board.UploadLoader(uart, mem);
      phase := if res.Hung? then Stuck else Running;
      if image.Some? {
        var now := board.flash.chip.st.main;
        StoreMayBecome(d, health, resting, main, LOADER_BASE, LoaderRecord(image.value), res.rep, now, failed);
        ReliableStores(d, health, resting, main, LOADER_BASE, LoaderRecord(image.value), res.rep, now, failed);
      }
    }

    method DoUploadUboot(line: seq<byte>, ghost mem: seq<byte>) returns (ghost mem': seq<byte>)
      requires ENV_END <= Total(board.flash.chip.dev)
      requires Valid() && |mem| == RAM_SIZE && Memory(board.ram, mem)
      modifies this`phase, board.flash, board.flash.chip, board.ram
      ensures Valid() && |mem'| == RAM_SIZE && Memory(board.ram, mem')
      ensures old(board.flash.chip.st.busy) == 0 ==> Careful(old(board.flash.chip.trace))
      ensures !phase.Started?
      ensures UbootStep(board.flash.chip.dev, board.flash.chip.health, old(board.flash.chip.st.busy) == 0,
                        old(board.flash.chip.st.main), line, board.flash.chip.st.main, phase)
    {
      hide Made, Memory, Patch, Receive, Record, StoreOutcome, MayBecome, Disciplined;
      var uart := new XmodemReceiver.Uart(line);
      var res;
      ghost var failed, main, image := 0, board.flash.chip.st.main, UbootFrom(line);
      ghost var d, health, resting := board.flash.chip.dev, board.flash.chip.health, board.flash.chip.st.busy == 0;
      res, mem', failed := board.UploadUboot(uart, mem);
      phase := if res.Hung? then Stuck else Running;
      if image.Some? {
        var now := board.flash.chip.st.main;
        StoreMayBecome(d, health, resting, main, UBOOT_BASE, Record(image.value), res.rep, now, failed);
        ReliableStores(d, health, resting, main, UBOOT_BASE, Record(image.value), res.rep, now, failed);
      }
    }

    method DoStart(ghost mem: seq<byte>) returns (ghost mem': seq<byte>)
      requires ENV_END <= Total(board.flash.chip.dev)
      requires Valid() && |mem| == RAM_SIZE && Memory(board.ram, mem)
      modifies this`phase, board.flash, board.flash.chip, board.ram
      ensures Valid() && |mem'| == RAM_SIZE && Memory(board.ram, mem')
      ensures old(board.flash.chip.st.busy) == 0 ==> Careful(old(board.flash.chip.trace))
      ensures !phase.Stuck? && board.flash.chip.st.main == old(board.flash.chip.st.main)
      ensures StartStep(board.flash.chip.health, old(board.flash.chip.st.busy) == 0, old(board.flash.chip.st.main),
                        board.flash.chip.st.main, phase)
      ensures phase.Started? ==> |phase.image| <= UBOOT_MAX_SIZE && mem'[START..START + |phase.image|] == phase.image
    {
      hide Made, Memory, BootResult, Disciplined;
      var b;
      b, mem' := board.BootUboot(mem);
      phase := if b.Checked? && b.outcome.Boots? then Started(b.outcome.image) else Running;
    }

    method DoErase(looks: seq<Confirm.Look>, ghost mem: seq<byte>) returns (ghost mem': seq<byte>)
      requires ENV_END <= Total(board.flash.chip.dev)
      requires Valid() && |mem| == RAM_SIZE && Memory(board.ram, mem)
      modifies this`phase, board.flash, board.flash.chip, board.ram, timer, timer.counter
      ensures Valid() && |mem'| == RAM_SIZE && Memory(board.ram, mem')
      ensures old(board.flash.chip.st.busy) == 0 ==> Careful(old(board.flash.chip.trace))
      ensures EraseStep(board.flash.chip.dev, board.flash.chip.health, old(board.flash.chip.st.busy) == 0,
                        old(board.flash.chip.st.main), Confirm.Answer(looks), board.flash.chip.st.main, phase)
    {
      hide Made, Memory, Patch, StoreOutcome, MayBecome, Disciplined, Confirm.Answer;
      var answer := Confirm.ConfirmYes(timer, looks);
      var confirmed := answer == Some(true);
      phase := if answer == None then Stuck else Running;
      var rep;
      ghost var failed, main, ones := 0, board.flash.chip.st.main, Filled(TOTAL_LEN, 0xFF);
      ghost var d, health, resting := board.flash.chip.dev, board.flash.chip.health, board.flash.chip.st.busy == 0;
      rep, mem', failed := board.EraseFlash(confirmed, mem);
      if confirmed {
        StoreMayBecome(d, health, resting, main, LOADER_BASE, ones, rep.value, board.flash.chip.st.main, failed);
        ReliableStores(d, health, resting, main, LOADER_BASE, ones, rep.value, board.flash.chip.st.main, failed);
      }
    }

    /** Carry out the command for a key. Between two commands time passes; the
        chip may still be busy when the next one comes. */
    method Execute(key: byte, poll: Poll, ghost mem: seq<byte>) returns (ghost mem': seq<byte>)
      requires phase == Running
      requires Valid() && |mem| == RAM_SIZE && Memory(board.ram, mem)
      modifies this, board.flash, board.flash.chip, board.ram, timer, timer.counter
      ensures Valid() && |mem'| == RAM_SIZE && Memory(board.ram, mem')
      ensures key == 0 ==> timer.polls == old(timer.polls)
      ensures old(board.flash.chip.st.busy) == 0 ==> Careful(old(board.flash.chip.trace))
      ensures Effect(board.flash.chip.dev, board.flash.chip.health, old(board.flash.chip.st.busy) == 0,
                     CommandOf(sdramTest, key), poll, old(board.flash.chip.st.main), board.flash.chip.st.main, phase)
      ensures autoboot == (old(autoboot) && !(key == KEY_START && phase.Running?))
      ensures dispmenu == ((key != 0 && phase.Running?) || (key == 0 && old(dispmenu)))
      ensures phase.Started? ==> |phase.image| <= UBOOT_MAX_SIZE && mem'[START..START + |phase.image|] == phase.image
    {
      hide Made, Memory, Disciplined, Receive, Record, LoaderRecord, BootResult, Patch, Confined, Filled;
      hide LoaderFrom, UbootFrom, Attempted, Confirm.Answer;
      PartIsSupported(board.flash.chip.code, board.flash.chip.dev);
      mem' := mem;
      board.flash.chip.Elapse();
      if key == 0 {
        return;
      }
      if key == KEY_LOADER {
        mem' := DoUploadLoader(poll.line, mem);
      } else if key == KEY_UBOOT {
        mem' := DoUploadUboot(poll.line, mem);
      } else if key == KEY_START {
        mem' := DoStart(mem);
        if phase == Running {
          autoboot := false;
        }
      } else if key == KEY_ERASE {
        mem' := DoErase(poll.looks, mem);
      } else if key == KEY_TEST && sdramTest {
        board.Fill(SCRATCH, RAM_SIZE, 0xAA, mem);
        mem' := Filled(RAM_SIZE, 0xAA);
        PatchAll(mem, mem');
      }
      dispmenu := phase == Running;
    }

    /** The menu is shown, and the countdown starts again. */
    method ShowMenu()
      requires Valid()
      modifies this`dispmenu, timer, timer.counter
      ensures Valid() && timer.polls == (if old(dispmenu) then [] else old(timer.polls)) && !dispmenu
    {
      if dispmenu {
        Confirm.Restart(timer);
        dispmenu := false;
      }
    }

    /** The key of this round: one that was pressed, or the start that the
        countdown leads to. */
    method ReadKey(poll: Poll) returns (key: byte)
      requires Valid() && !dispmenu
      modifies this`autoboot, timer, timer.counter
      ensures Valid() && autoboot == Armed(old(autoboot), poll)
      ensures timer.polls == old(timer.polls) + (if NoKey(poll) && autoboot then [poll.gap] else [])
      ensures CommandOf(sdramTest, key) == Chosen(sdramTest, old(Current()), poll)
      ensures key == KEY_START <==> Chosen(sdramTest, old(Current()), poll).Start?
      ensures key == 0 <==> Chosen(sdramTest, old(Current()), poll).Wait?
    {
      hide Timer.Stamp;
      key := 0;
      if poll.key.Some? {
        key := poll.key.value;
        if key == AUTOBOOT_ESCAPE {
          autoboot := false;
          key := 0;
        }
      }
      if key == 0 && autoboot {
        timer.counter.Await(poll.gap);
        var waited := timer.GetTimerMasked();
        if waited >= AUTOBOOT_DELAY {
          key := KEY_START;
        }
      }
    }

    /** One round: show the menu, look for a key, and carry out its command. */
    method Round(poll: Poll, ghost mem: seq<byte>) returns (ghost mem': seq<byte>)
      requires phase == Running
      requires Valid() && |mem| == RAM_SIZE && Memory(board.ram, mem)
      modifies this, board.flash, board.flash.chip, board.ram, timer, timer.counter
      ensures Valid() && |mem'| == RAM_SIZE && Memory(board.ram, mem')
      ensures old(board.flash.chip.st.busy) == 0 ==> Careful(old(board.flash.chip.trace))
      ensures Step(board.flash.chip.dev, board.flash.chip.health, sdramTest, old(Current()), poll, Current())
      ensures phase.Started? ==> |phase.image| <= UBOOT_MAX_SIZE && mem'[START..START + |phase.image|] == phase.image
    {
      hide Made, Memory, Disciplined, Effect, CommandOf, Timer.Stamp;
      ghost var s := Current();
      ShowMenu();
      ShownIsSame(sdramTest, s, Current(), poll);
      var key := ReadKey(poll);
      mem' := Execute(key, poll, mem);
    }

    /** The loop, until u-boot has started, an upload hangs, or there is no more
        input. */
    method StartArmboot(polls: seq<Poll>, ghost mem: seq<byte>)
      returns (n: nat, ghost states: seq<State>, ghost mem': seq<byte>)
      requires Valid() && phase == Running && |mem| == RAM_SIZE && Memory(board.ram, mem)
      modifies this, board.flash, board.flash.chip, board.ram, timer, timer.counter
      ensures Valid() && |mem'| == RAM_SIZE && Memory(board.ram, mem')
      ensures n <= |polls| && (n < |polls| ==> phase != Running)
      ensures Run(board.flash.chip.dev, board.flash.chip.health, sdramTest, states, polls[..n])
      ensures states[0] == old(Current()) && states[n] == Current()
      ensures board.flash.chip.health == Reliable && old(board.flash.chip.st.busy) == 0 ==>
        Careful(old(board.flash.chip.trace))
      ensures phase.Started? ==> |phase.image| <= UBOOT_MAX_SIZE && mem'[START..START + |phase.image|] == phase.image
    {
      hide Made, Memory, Disciplined, Step;
      n, states, mem' := 0, [Current()], mem;
      while n < |polls| && phase == Running
        invariant Valid() && |mem'| == RAM_SIZE && Memory(board.ram, mem')
        invariant n <= |polls|
        invariant board.flash.chip.health == Reliable && old(board.flash.chip.st.busy) == 0 ==>
          Careful(old(board.flash.chip.trace))
        invariant Run(board.flash.chip.dev, board.flash.chip.health, sdramTest, states, polls[..n])
        invariant states[0] == old(Current()) && states[n] == Current()
        invariant phase.Started? ==>
          |phase.image| <= UBOOT_MAX_SIZE && mem'[START..START + |phase.image|] == phase.image
      {
        mem' := Round(polls[n], mem');
        RunMore(board.flash.chip.dev, board.flash.chip.health, sdramTest, states, polls, n, Current());
        states := states + [Current()];
        n := n + 1;
      }
    }
  }

  /** Showing the menu does not change what a round chooses. */
  lemma ShownIsSame(sdramTest: bool, s: State, shown: State, poll: Poll)
    requires shown.gaps == (if s.dispmenu then [] else s.gaps) && !shown.dispmenu && shown.autoboot == s.autoboot
    ensures Chosen(sdramTest, s, poll) == Chosen(sdramTest, shown, poll) && Looked(s, poll) == Looked(shown, poll)
  {
    hide Timer.Stamp, CommandOf;
  }

  /** A reliable chip at rest takes what it is to store. */
  lemma ReliableStores(d: Device, health: Health, resting: bool, main: seq<byte>, dst: nat, data: seq<byte>,
                       rep: Report, now: seq<byte>, p: nat)
    requires d.size >= 1 && StoreOutcome(d, health, resting, main, dst, data, rep, now, p) && dst + |data| <= Total(d)
    ensures health == Reliable && resting ==> rep == Stored
  {
    hide Attempted, Patch, Confined;
  }

  lemma RunMore(d: Device, health: Health, sdramTest: bool, states: seq<State>, polls: seq<Poll>, n: nat, next: State)
    requires n < |polls| && Run(d, health, sdramTest, states, polls[..n])
    requires Step(d, health, sdramTest, states[n], polls[n], next)
    ensures Run(d, health, sdramTest, states + [next], polls[..n + 1])
  {
    hide Step;
  }
}
