/** The caller asks for a file's line digests and polls; the worker thread takes commands and replies.
    A run interleaves the steps of both, down to each queue operation and each store of the read state. */
module ContentProtocol {
  import opened Bytes
  import opened ContentLines
  import opened ContentReader

  datatype Command = Prepare | Read

  datatype ReadState = Init | Preparing | BlockDone | Reading

  datatype Caller = AtRest | Writing(cmd: Command, next: ReadState) | Written(next: ReadState) | Got(code: Code)

  datatype Worker = Waiting | Busy(cmd: Command) | Replying(reply: Code)

  /** The lines whose digests were listed, and the number of blank lines. */
  datatype Answer = Answer(kept: seq<Text>, blanks: nat)

  datatype System = System(
    block: nat,
    state: ReadState,
    caller: Caller,
    worker: Worker,
    cmds: seq<Command>,
    replies: seq<Code>,
    progress: Progress,
    asked: seq<Text>,
    answers: seq<Answer>,
    broken: bool,
    faulted: bool
  )

  function Start(block: nat): System {
    System(block, Init, AtRest, Waiting, [], [], Progress(false, 0, Tally([], [], 0)), [], [], false, false)
  }

  /** A call of `do_file_content`, which asserts that no other file is being read; it hands over empty results. */
  function Ask(s: System, file: Text): System {
    if s.caller != AtRest then s
    else if s.state != Init then s.(faulted := true)
    else s.(asked := s.asked + [file],
            progress := s.progress.(tally := Tally(s.progress.tally.carry, [], 0)),
            caller := Writing(Prepare, Preparing))
  }

  /** A call of `get_file_content`, as far as its first step; no branch of it handles the initial state. */
  function Poll(s: System): System {
    if s.caller != AtRest then s else
      match s.state
      case Init => s.(faulted := true)
      case BlockDone => s.(caller := Writing(Read, Reading))
      case _ => if s.replies == [] then s else s.(replies := s.replies[1..], caller := Got(s.replies[0]))
  }

  /** The next step of the call that the caller is in. */
  function CallerStep(s: System): System {
    match s.caller
    case AtRest => s
    case Writing(cmd, next) => s.(cmds := s.cmds + [cmd], caller := Written(next))
    case Written(next) => s.(state := next, caller := AtRest)
    case Got(code) =>
      if s.state == Preparing then
        if code == Success then s.(caller := Writing(Read, Reading)) else s.(caller := AtRest, broken := true)
      else
        (match code
         case Success => s.(state := BlockDone, caller := AtRest)
         case Over =>
           if s.progress.open then s.(faulted := true)
           else s.(state := Init, caller := AtRest,
                   answers := s.answers + [Answer(s.progress.tally.kept, s.progress.tally.blanks)])
         case Failed => s.(caller := AtRest, broken := true))
  }

  /** The worker's next step; `ok` is whether the system call in it succeeds. */
  function WorkerStep(s: System, ok: bool): System {
    match s.worker
    case Waiting => if s.cmds == [] then s else s.(cmds := s.cmds[1..], worker := Busy(s.cmds[0]))
    case Busy(Prepare) =>
      if s.progress.open || s.progress.tally.kept != [] || s.progress.tally.blanks != 0 then s.(faulted := true)
      else if !ok then s.(worker := Replying(Failed))
      else s.(progress := Progress(true, 0, s.progress.tally), worker := Replying(Success))
    case Busy(Read) =>
      if !s.progress.open || s.asked == [] || |s.asked[|s.asked| - 1]| < s.progress.pos then s.(faulted := true)
      else if !ok then s.(worker := Replying(Failed))
      else
        var (p, code) := ReadOnce(s.progress, s.asked[|s.asked| - 1], s.block);
        s.(progress := p, worker := Replying(code))
    case Replying(code) => s.(replies := s.replies + [code], worker := Waiting)
  }

  datatype Turn = Asking(file: Text) | Polling | CallerTurn | WorkerTurn(ok: bool)

  /** A failed assertion ends the program. */
  function Step(s: System, turn: Turn): System {
    if s.faulted then s else
      match turn
      case Asking(file) => Ask(s, file)
      case Polling => Poll(s)
      case CallerTurn => CallerStep(s)
      case WorkerTurn(ok) => WorkerStep(s, ok)
  }

  function Run(s: System, turns: seq<Turn>): System
    decreases |turns|
  {
    if turns == [] then s else Run(Step(s, turns[0]), turns[1..])
  }

  // ---- what is asked of the caller

  /** A file is asked for only when all before it are answered, and polled for only while it is not. The
      caller, a single thread, makes no call inside another: such a turn does nothing. */
  predicate Proper(s: System, turn: Turn) {
    match turn
    case Asking(_) => s.caller == AtRest ==> |s.asked| == |s.answers|
    case Polling => s.caller == AtRest ==> |s.asked| != |s.answers|
    case _ => true
  }

  predicate ProperRun(s: System, turns: seq<Turn>)
    decreases |turns|
  {
    turns == [] || (Proper(s, turns[0]) && ProperRun(Step(s, turns[0]), turns[1..]))
  }

  // ---- what the answers must be

  /** The blank unfinished line that reading these files, one after the other, leaves in the carry. */
  function Carried(files: seq<Text>): Text {
    if files == [] then [] else
      var t := Unfinished(Carried(files[..|files| - 1]) + files[|files| - 1]);
      if IsBlankLine(t) then t else []
  }

  function AnswerOf(carry: Text, file: Text): Answer {
    Answer(Kept(FileLines(carry + file)), BlankCount(FileLines(carry + file)))
  }

  // ---- what every step keeps

  function Tokens(s: System): nat {
    |s.cmds| + (if s.worker == Waiting then 0 else 1) + |s.replies|
  }

  function Current(s: System): Text
    requires s.asked != []
  {
    s.asked[|s.asked| - 1]
  }

  function StartTally(s: System): Tally
    requires s.asked != []
  {
    Tally(Carried(s.asked[..|s.asked| - 1]), [], 0)
  }

  /** The file is still closed, and nothing has been found. */
  ghost predicate Fresh(s: System) {
    s.asked != [] && !s.progress.open && s.progress.tally == StartTally(s)
  }

  /** The file is open, and its tally is right as far as it has been read. */
  ghost predicate Midway(s: System) {
    && s.asked != [] && s.progress.open && s.progress.pos <= |Current(s)|
    && ByLines(s.progress.tally, Current(s)[s.progress.pos..]) == ByLines(StartTally(s), Current(s))
  }

  /** The file is closed, and all of it has been tallied. */
  ghost predicate Complete(s: System) {
    && s.asked != [] && !s.progress.open && s.progress.pos == |Current(s)|
    && s.progress.tally == Finish(ByLines(StartTally(s), Current(s)))
  }

  ghost predicate Replied(s: System, cmd: Command, code: Code) {
    match code
    case Success => Midway(s)
    case Over => cmd == Read && Complete(s)
    case Failed => true
  }

  /** One command is on its way to the worker, in its hands, or answered but not yet heard of. */
  ghost predicate InFlight(s: System, cmd: Command) {
    var ready := if cmd == Prepare then Fresh(s) else Midway(s);
    || (s.cmds == [cmd] && s.worker == Waiting && s.replies == [] && ready)
    || (s.cmds == [] && s.worker == Busy(cmd) && s.replies == [] && ready)
    || (s.cmds == [] && s.worker.Replying? && s.replies == [] && Replied(s, cmd, s.worker.reply))
    || (s.cmds == [] && s.worker == Waiting && |s.replies| == 1 && Replied(s, cmd, s.replies[0]))
  }

  /** Nothing is being read or asked for. */
  predicate Done(s: System) { s.caller == AtRest && s.state == Init }

  predicate Quiet(s: System) { s.cmds == [] && s.worker == Waiting && s.replies == [] }

  ghost predicate Phase(s: System) {
    match s.caller
    case AtRest =>
      if s.broken then Quiet(s) && s.state in {Preparing, Reading}
      else (match s.state
            case Init =>
              && Quiet(s) && !s.progress.open && s.progress.tally.carry == Carried(s.asked)
              && (s.asked != [] ==> s.progress.pos == |Current(s)|)
            case Preparing => InFlight(s, Prepare)
            case BlockDone => Quiet(s) && Midway(s)
            case Reading => InFlight(s, Read))
    case Writing(cmd, next) =>
      && !s.broken && Quiet(s)
      && if cmd == Prepare then next == Preparing && s.state == Init && Fresh(s)
         else next == Reading && s.state in {Preparing, BlockDone} && Midway(s)
    case Written(next) =>
      && !s.broken
      && if next == Preparing then s.state == Init && InFlight(s, Prepare)
         else next == Reading && s.state in {Preparing, BlockDone} && InFlight(s, Read)
    case Got(code) =>
      && !s.broken && Quiet(s) && s.state in {Preparing, Reading}
      && Replied(s, if s.state == Preparing then Prepare else Read, code)
  }

  /** Every file asked for has its answer, but one that is still being read. */
  ghost predicate Answered(s: System) {
    && |s.asked| == |s.answers| + (if Done(s) then 0 else 1)
    && forall k :: 0 <= k < |s.answers| ==> s.answers[k] == AnswerOf(Carried(s.asked[..k]), s.asked[k])
  }

  ghost predicate Inv(s: System) {
    s.block > 0 && Phase(s) && Answered(s)
  }

  lemma {:induction false} CarriedIsBlank(files: seq<Text>)
    ensures LF !in Carried(files) && IsBlankLine(Carried(files))
  {
    if files != [] {
      var before, file := files[..|files| - 1], files[|files| - 1];
      CarriedIsBlank(before);
      CarryIsUnfinished(Carried(before), file, [], 0);
      hide Unfinished;
      hide ByLines;
    }
  }

  /** What a file left in the carry once it has been read completely. */
  lemma {:induction false} CompleteCarry(s: System)
    requires Complete(s)
    ensures s.progress.tally.carry == Carried(s.asked)
    ensures Answer(s.progress.tally.kept, s.progress.tally.blanks)
            == AnswerOf(Carried(s.asked[..|s.asked| - 1]), Current(s))
  {
    hide ByLines;
    hide Finish;
    hide Unfinished;
    hide IsBlankLine;
    hide FileLines;
    hide Kept;
    hide BlankCount;
    var before := Carried(s.asked[..|s.asked| - 1]);
    CarriedIsBlank(s.asked[..|s.asked| - 1]);
    CarryLeft(before, Current(s));
    TallyIsFileLines(before, Current(s));
  }

  lemma {:induction false} OpenedIsMidway(s: System)
    requires Fresh(s)
    ensures Midway(s.(progress := Progress(true, 0, s.progress.tally)))
  {
    hide ByLines;
    assert Current(s)[0..] == Current(s);
  }

  lemma {:induction false} ReadKeeps(s: System)
    requires Midway(s) && s.block > 0
    ensures var (p, code) := ReadOnce(s.progress, Current(s), s.block);
            Replied(s.(progress := p), Read, code)
  {
    hide ReadOnce;
    hide ByLines;
    hide Finish;
    ReadProgress(s.progress, Current(s), s.block);
  }

  lemma {:induction false} AskAnswered(s: System, file: Text)
    requires Answered(s) && s.caller == AtRest && s.state == Init
    ensures Answered(Ask(s, file)) && Ask(s, file).asked[..|s.asked|] == s.asked
  {
    hide Carried;
    hide AnswerOf;
    var z := Ask(s, file);
    forall k | 0 <= k < |s.answers| ensures z.answers[k] == AnswerOf(Carried(z.asked[..k]), z.asked[k]) {
      assert z.asked[..k] == s.asked[..k];
    }
  }

  lemma {:induction false} AskInv(s: System, file: Text)
    requires Inv(s) && !s.faulted
    ensures Inv(Ask(s, file))
    ensures Ask(s, file).faulted <==> !Proper(s, Asking(file))
  {
    hide ByLines;
    hide Carried;
    hide AnswerOf;
    if s.caller == AtRest && s.state == Init { AskAnswered(s, file); }
  }

  lemma {:induction false} PollInv(s: System)
    requires Inv(s) && !s.faulted
    ensures Inv(Poll(s))
    ensures Poll(s).faulted <==> !Proper(s, Polling)
  {
    hide ByLines;
    hide Carried;
    hide AnswerOf;
  }

  lemma {:induction false} CallerInv(s: System)
    requires Inv(s) && !s.faulted
    ensures Inv(CallerStep(s)) && !CallerStep(s).faulted
  {
    hide ByLines;
    hide Carried;
    hide AnswerOf;
    if s.caller == Got(Over) {
      CompleteCarry(s);
    }
  }

  lemma {:induction false} WorkerInv(s: System, ok: bool)
    requires Inv(s) && !s.faulted
    ensures Inv(WorkerStep(s, ok)) && !WorkerStep(s, ok).faulted
  {
    hide ByLines;
    hide Carried;
    hide AnswerOf;
    hide ReadOnce;
    if s.worker == Busy(Prepare) {
      OpenedIsMidway(s);
    } else if s.worker == Busy(Read) {
      ReadKeeps(s);
    }
  }

  lemma {:induction false} StepInv(s: System, turn: Turn)
    requires Inv(s)
    ensures Inv(Step(s, turn))
    ensures !s.faulted ==> (Step(s, turn).faulted <==> !Proper(s, turn))
  {
    hide Inv;
    hide WorkerStep;
    hide CallerStep;
    hide Poll;
    hide Ask;
    if !s.faulted {
      match turn
      case Asking(file) => AskInv(s, file);
      case Polling => PollInv(s);
      case CallerTurn => CallerInv(s);
      case WorkerTurn(ok) => WorkerInv(s, ok);
    }
  }

  /** The caller's asks and polls decide whether an assertion fails, whatever the threads do in between. */
  lemma {:induction false} RunInv(s: System, turns: seq<Turn>)
    requires Inv(s)
    ensures Inv(Run(s, turns))
    ensures s.faulted ==> Run(s, turns) == s
    ensures !s.faulted ==> (Run(s, turns).faulted <==> !ProperRun(s, turns))
    decreases |turns|
  {
    hide Inv;
    hide Proper;
    if turns != [] {
      StepInv(s, turns[0]);
      var z := Step(s, turns[0]);
      assert s.faulted ==> z == s;
      hide Step;
      RunInv(z, turns[1..]);
    }
  }

  /** In every interleaving: an assertion of the source fails exactly if a file is asked for before the last
      one is answered, or polled for after it is; at most one command or reply is about, and one is exactly
      while the read state says so; and every answer is that of the whole file, with what the files before it
      left in the carry. */
  lemma {:induction false} EveryRunAnswers(block: nat, turns: seq<Turn>)
    requires block > 0
    ensures var s := Run(Start(block), turns);
            && (s.faulted <==> !ProperRun(Start(block), turns))
            && Tokens(s) <= 1
            && (s.caller == AtRest ==> (Tokens(s) == 1 <==> s.state in {Preparing, Reading} && !s.broken))
            && |s.answers| <= |s.asked| <= |s.answers| + 1
            && (Done(s) ==>
                |s.answers| == |s.asked| && !s.progress.open && (s.asked != [] ==> s.progress.pos == |Current(s)|))
            && forall k :: 0 <= k < |s.answers| ==> s.answers[k] == AnswerOf(Carried(s.asked[..k]), s.asked[k])
  {
    assert Carried([]) == [];
    RunInv(Start(block), turns);
    hide Run;
    hide ProperRun;
    hide Current;
    hide ByLines;
    hide Carried;
    hide AnswerOf;
  }

  /** Once a system call has failed, no file is answered any more: polls find nothing, and asking for
      another file fails an assertion. */
  lemma {:induction false} FailureIsFinal(s: System, turns: seq<Turn>, file: Text)
    requires Inv(s) && s.broken && s.caller == AtRest && !s.faulted
    ensures var z := Run(s, turns);
            && z == s.(faulted := z.faulted) && Step(z, Asking(file)).faulted
            && (z.faulted <==> exists k :: 0 <= k < |turns| && turns[k].Asking?)
    decreases |turns|
  {
    hide Midway;
    hide Fresh;
    hide Complete;
    hide Carried;
    hide AnswerOf;
    if turns != [] {
      var rest := turns[1..];
      if turns[0].Asking? {
        RunInv(Step(s, turns[0]), rest);
      } else {
        FailureIsFinal(s, rest, file);
        forall k | 0 <= k < |turns| && turns[k].Asking? ensures rest[k - 1].Asking? {}
        forall k | 0 <= k < |rest| && rest[k].Asking? ensures turns[k + 1].Asking? {}
      }
    }
  }

  /** A file is asked for and cannot be opened, and then another file is asked for. */
  lemma {:induction false} FailedOpenStops()
    ensures var turns := [Asking([65]), CallerTurn, CallerTurn, WorkerTurn(true), WorkerTurn(false), WorkerTurn(true),
                          Polling, CallerTurn];
            var s := Run(Start(1), turns);
            s.broken && !s.faulted && Step(s, Asking([66])).faulted
  {
  }

  /** The answer is that of the file alone exactly when nothing was carried into it, or its first line is
      blank as well. */
  lemma {:induction false} AnswerIsTheFiles(before: seq<Text>, file: Text)
    ensures AnswerOf(Carried(before), file) == AnswerOf([], file)
            <==> Carried(before) == [] || (file != [] && IsBlankLine(file[..LineLength(file)]))
  {
    hide Carried;
    hide FileLines;
    hide Kept;
    hide BlankCount;
    hide IsBlankLine;
    hide LineLength;
    CarriedIsBlank(before);
    StaleCarry(Carried(before), file);
    assert [] + file == file;
  }

  /** A file of one space and then one of "A". */
  lemma {:induction false} CarriedBlankMisleads()
    ensures AnswerOf(Carried([[32]]), [65]) != AnswerOf([], [65])
  {
    assert [[32]][..0] == [] && Carried([]) == [];
    assert [] + [32] == [32];
    AnswerIsTheFiles([[32]], [65]);
  }

  // ---- every file asked for is answered

  /** No system call and no assertion has failed. */
  predicate Sound(s: System) {
    !s.faulted && !s.broken && s.caller != Got(Failed) && s.worker != Replying(Failed) && Failed !in s.replies
  }

  /** A thread's turn: the caller polls when it is at rest, and no system call of the worker fails. */
  function TurnOf(s: System, caller: bool): Turn {
    if !caller then WorkerTurn(true) else if s.caller == AtRest then Polling else CallerTurn
  }

  /** The state after `k` turns of a schedule, which says for every time if it is the caller's, from time `n` on. */
  function After(s: System, callers: nat -> bool, n: nat, k: nat): System
    decreases k
  {
    if k == 0 then s else After(Step(s, TurnOf(s, callers(n))), callers, n + 1, k - 1)
  }

  ghost predicate Later(callers: nat -> bool, caller: bool, n: nat) {
    exists m :: n <= m && callers(m) == caller
  }

  /** Both threads keep getting turns. */
  ghost predicate Fair(callers: nat -> bool) {
    forall n: nat :: Later(callers, true, n) && Later(callers, false, n)
  }

  ghost predicate Soon(callers: nat -> bool, caller: bool, n: nat, w: nat) {
    exists m :: n <= m < n + w && callers(m) == caller
  }

  /** Both threads get a turn in every `w` turns. */
  ghost predicate FairWithin(callers: nat -> bool, w: nat) {
    forall n: nat :: Soon(callers, true, n, w) && Soon(callers, false, n, w)
  }

  /** What is left to read, then how far the command or its reply has come. */
  function Distance(s: System): nat
    requires s.asked != []
  {
    16 * (if s.progress.open then (if s.progress.pos <= |Current(s)| then |Current(s)| - s.progress.pos + 1 else 0)
          else if s.state == Reading || Over in s.replies || s.worker == Replying(Over) then 0
          else |Current(s)| + 2)
    + (match s.caller
       case Writing(_, _) => 8
       case Written(_) => 1
       case Got(_) => 10
       case AtRest => if s.state == BlockDone then 9 else 0)
    + (if s.cmds != [] then 2 else if s.replies != [] then 11 else
       match s.worker case Waiting => 0 case Busy(_) => 1 case Replying(_) => 12)
  }

  lemma {:induction false} CallerNears(s: System)
    requires Inv(s) && Sound(s) && !Done(s)
    ensures var z := Step(s, TurnOf(s, true));
            && Inv(z) && Sound(z) && z.asked == s.asked != []
            && (z == s || Done(z) || Distance(z) < Distance(s))
  {
    hide ByLines;
    hide Carried;
    hide AnswerOf;
    hide Finish;
    if s.caller == AtRest { PollInv(s); } else { CallerInv(s); }
  }

  lemma {:induction false} WorkerNears(s: System)
    requires Inv(s) && Sound(s) && !Done(s)
    ensures var z := Step(s, TurnOf(s, false));
            && Inv(z) && Sound(z) && !Done(z) && z.asked == s.asked != []
            && (z == s || Distance(z) < Distance(s))
            && (Step(s, TurnOf(s, true)) == s ==> z != s)
  {
    hide ReadOnce;
    hide ByLines;
    hide Carried;
    hide AnswerOf;
    hide Finish;
    WorkerInv(s, true);
    if s.worker == Busy(Read) {
      ReadProgress(s.progress, Current(s), s.block);
    }
  }

  /** One of the threads has a step to go. */
  predicate Goes(s: System, caller: bool) { Step(s, TurnOf(s, caller)) != s }

  lemma {:induction false} TurnNears(s: System, caller: bool)
    requires Inv(s) && Sound(s) && !Done(s)
    ensures var z := Step(s, TurnOf(s, caller));
            && Inv(z) && Sound(z) && z.asked == s.asked != []
            && (z == s || Done(z) || Distance(z) < Distance(s))
            && (Goes(s, true) || Goes(s, false))
  {
    hide Inv;
    hide Sound;
    hide Done;
    hide Distance;
    hide Step;
    hide TurnOf;
    CallerNears(s);
    WorkerNears(s);
  }

  /** The time at which the caller, or the worker, next gets a turn. */
  lemma {:induction false} NextTurn(callers: nat -> bool, caller: bool, n: nat, w: nat) returns (m: nat)
    requires Fair(callers)
    ensures n <= m && callers(m) == caller
    ensures FairWithin(callers, w) ==> m < n + w
  {
    if FairWithin(callers, w) {
      assert Soon(callers, caller, n, w);
      m :| n <= m < n + w && callers(m) == caller;
    } else {
      assert Later(callers, caller, n);
      m :| n <= m && callers(m) == caller;
    }
  }

  /** The thread that has a step to go gets its turn at `m`, and then the file is nearer to its answer. */
  lemma {:induction false} FairFinishes(s: System, callers: nat -> bool, n: nat, m: nat, w: nat) returns (k: nat)
    requires Inv(s) && Sound(s) && !Done(s) && Fair(callers)
    requires n <= m && Goes(s, callers(m)) && (FairWithin(callers, w) ==> m < n + w)
    ensures var z := After(s, callers, n, k); Inv(z) && Sound(z) && Done(z) && z.asked == s.asked != []
    ensures FairWithin(callers, w) ==> k <= w * Distance(s) + m + 1 - n
    decreases Distance(s), m - n
  {
    hide *;
    var z := Step(s, TurnOf(s, callers(n)));
    TurnNears(s, callers(n));
    if z == s {
      StillGoes(s, callers(n), callers(m));
      k := FairFinishes(s, callers, n + 1, m, w);
    } else if Done(z) {
      k := 0;
      AfterStep(z, callers, n + 1, 0);
    } else {
      TurnNears(z, true);
      var m' := NextTurn(callers, Goes(z, true), n + 1, w);
      k := FairFinishes(z, callers, n + 1, m', w);
      Fewer(w, Distance(z), Distance(s));
    }
    AfterStep(s, callers, n, k);
    k := k + 1;
  }

  lemma {:induction false} StillGoes(s: System, caller: bool, mover: bool)
    requires Step(s, TurnOf(s, caller)) == s && Goes(s, mover)
    ensures caller != mover
  {
    hide Step;
  }

  lemma {:induction false} AfterStep(s: System, callers: nat -> bool, n: nat, k: nat)
    ensures After(s, callers, n, 0) == s
    ensures After(s, callers, n, k + 1) == After(Step(s, TurnOf(s, callers(n))), callers, n + 1, k)
  {
    hide Step;
  }

  lemma {:induction false} Fewer(w: nat, d: nat, e: nat)
    requires d < e
    ensures w * d + w <= w * e
  {
    assert w * (d + 1) <= w * e;
  }

  /** While no system call fails, a file asked for is answered in every schedule in which both threads keep
      getting turns; and if they do within every `w` turns, after at most `w` turns for each step to go. */
  lemma {:induction false} AskedIsAnswered(s: System, file: Text, callers: nat -> bool, w: nat) returns (k: nat)
    requires Inv(s) && Sound(s) && Done(s) && Fair(callers)
    ensures var t := Ask(s, file);
            var z := After(t, callers, 0, k);
            && Inv(z) && Sound(z) && Done(z) && !z.progress.open && z.progress.pos == |file|
            && z.asked == s.asked + [file] && |z.answers| == |s.answers| + 1
            && z.answers[|s.answers|] == AnswerOf(Carried(s.asked), file)
            && (FairWithin(callers, w) ==> k <= w * (Distance(t) + 1))
  {
    AskInv(s, file);
    AskStarts(s, file);
    var t := Ask(s, file);
    hide *;
    TurnNears(t, true);
    var m := NextTurn(callers, Goes(t, true), 0, w);
    k := FairFinishes(t, callers, 0, m, w);
    DoneAnswers(After(t, callers, 0, k));
    DoneAnswers(s);
  }

  lemma {:induction false} AskStarts(s: System, file: Text)
    requires Done(s) && Sound(s)
    ensures var t := Ask(s, file);
            Sound(t) && !Done(t) && t.asked == s.asked + [file] && t.asked[..|s.asked|] == s.asked
  {
  }

  lemma {:induction false} DoneAnswers(s: System)
    requires Inv(s) && Done(s) && Sound(s)
    ensures |s.answers| == |s.asked| && !s.progress.open
    ensures s.asked != [] ==> s.progress.pos == |Current(s)|
    ensures forall k :: 0 <= k < |s.answers| ==> s.answers[k] == AnswerOf(Carried(s.asked[..k]), s.asked[k])
  {
    hide Carried;
    hide AnswerOf;
    hide Current;
  }
}
