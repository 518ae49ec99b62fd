/**
 logs/logs.go and console_tailed_logs_outputter.go: two bounded channels in series with a reader in
 between, a printer at the end and a stop rendezvous, as a state machine over their atomic steps.
 */
module LogPipeline {

  const CAPACITY := 10

  datatype Message = Log(text: string) | Err(text: string)

  /** readChannels: at its select, inside a callback, stopped by the signal, or returned at a closed channel. */
  datatype Reader = Selecting | Calling(message: Message) | Stopped | Finished

  /** StopTailing: not called, blocked in the send, past it, and returned. */
  datatype Stopper = Idle | Waiting | Received | Closed

  /** OutputTailedLogs: at its range, or holding a line it is about to print. */
  datatype Printer = Ranging | Holding(message: Message)

  /** logs and errors are everything the consumer has sent so far. */
  datatype State = State(
    logs: seq<string>, errors: seq<string>,
    logChan: seq<string>, logClosed: bool, errorChan: seq<string>,
    reader: Reader, stopper: Stopper,
    outputChan: seq<Message>, printer: Printer, printed: seq<Message>)

  const INIT := State([], [], [], false, [], Selecting, Idle, [], Ranging, [])

  datatype Step =
    | SendLog(text: string) | SendError(text: string) | CloseLogs
    | TakeLog | TakeError | SeeClosed | Push
    | Fetch | Say
    | RequestStop | ReceiveStop | CloseConsumer

  predicate Enabled(s: State, step: Step) {
    match step
    case SendLog(_) => !s.logClosed && |s.logChan| < CAPACITY
    case SendError(_) => |s.errorChan| < CAPACITY
    case CloseLogs => !s.logClosed
    case TakeLog => s.reader.Selecting? && s.logChan != []
    case TakeError => s.reader.Selecting? && s.errorChan != []
    case SeeClosed => s.reader.Selecting? && s.logClosed && s.logChan == []
    case Push => s.reader.Calling? && |s.outputChan| < CAPACITY
    case Fetch => s.printer.Ranging? && s.outputChan != []
    case Say => s.printer.Holding?
    case RequestStop => s.stopper.Idle?
    case ReceiveStop => s.reader.Selecting? && s.stopper.Waiting?
    case CloseConsumer => s.stopper.Received?
  }

  function Next(s: State, step: Step): State
    requires Enabled(s, step)
  {
    match step
    case SendLog(text) => s.(logs := s.logs + [text], logChan := s.logChan + [text])
    case SendError(text) => s.(errors := s.errors + [text], errorChan := s.errorChan + [text])
    case CloseLogs => s.(logClosed := true)
    case TakeLog => s.(reader := Calling(Log(s.logChan[0])), logChan := s.logChan[1..])
    case TakeError => s.(reader := Calling(Err(s.errorChan[0])), errorChan := s.errorChan[1..])
    case SeeClosed => s.(reader := Finished)
    case Push => s.(reader := Selecting, outputChan := s.outputChan + [s.reader.message])
    case Fetch => s.(printer := Holding(s.outputChan[0]), outputChan := s.outputChan[1..])
    case Say => s.(printer := Ranging, printed := s.printed + [s.printer.message])
    case RequestStop => s.(stopper := Waiting)
    case ReceiveStop => s.(stopper := Received, reader := Stopped)
    case CloseConsumer => s.(stopper := Closed)
  }

  /** A schedule that can be run from a state: every interleaving is one. */
  predicate CanRun(s: State, steps: seq<Step>)
    decreases |steps|
  {
    steps == [] || (Enabled(s, steps[0]) && CanRun(Next(s, steps[0]), steps[1..]))
  }

  function Run(s: State, steps: seq<Step>): State
    requires CanRun(s, steps)
    decreases |steps|
  {
    if steps == [] then s else Run(Next(s, steps[0]), steps[1..])
  }

  // ---------- nothing is lost, doubled or reordered ----------

  function LogTexts(messages: seq<Message>): seq<string> {
    if messages == [] then []
    else LogTexts(messages[..|messages| - 1])
         + if messages[|messages| - 1].Log? then [messages[|messages| - 1].text] else []
  }

  function ErrTexts(messages: seq<Message>): seq<string> {
    if messages == [] then []
    else ErrTexts(messages[..|messages| - 1])
         + if messages[|messages| - 1].Err? then [messages[|messages| - 1].text] else []
  }

  function HeldByPrinter(s: State): seq<Message> {
    if s.printer.Holding? then [s.printer.message] else []
  }

  function HeldByReader(s: State): seq<Message> {
    if s.reader.Calling? then [s.reader.message] else []
  }

  /** Everything that ever entered the output channel, in order. */
  function Entered(s: State): seq<Message> {
    s.printed + HeldByPrinter(s) + s.outputChan
  }

  ghost predicate Invariant(s: State) {
    && Accounted(s)
    && |s.logChan| <= CAPACITY && |s.errorChan| <= CAPACITY && |s.outputChan| <= CAPACITY
    && (s.reader.Stopped? <==> s.stopper.Received? || s.stopper.Closed?)
    && (s.reader.Finished? ==> s.logClosed && s.logChan == [])
  }

  lemma TextsSnoc(messages: seq<Message>, m: Message)
    ensures LogTexts(messages + [m]) == LogTexts(messages) + if m.Log? then [m.text] else []
    ensures ErrTexts(messages + [m]) == ErrTexts(messages) + if m.Err? then [m.text] else []
  {
    assert (messages + [m])[..|messages|] == messages;
  }

  /** What a step does to the line of messages between consumer and screen. */
  lemma EnteredStep(s: State, step: Step)
    requires Enabled(s, step)
    ensures Entered(Next(s, step)) == Entered(s) + if step.Push? then [s.reader.message] else []
  {
  }

  /** Everything taken from the consumer's channels, in order. */
  function Taken(s: State): seq<Message> {
    Entered(s) + HeldByReader(s)
  }

  /** Only taking a message changes what was taken. */
  lemma TakenStep(s: State, step: Step)
    requires Enabled(s, step)
    ensures Taken(Next(s, step)) == Taken(s) + (if step.TakeLog? then [Log(s.logChan[0])]
                                                else if step.TakeError? then [Err(s.errorChan[0])] else [])
  {
    EnteredStep(s, step);
  }

  ghost predicate Accounted(s: State) {
    LogTexts(Taken(s)) + s.logChan == s.logs && ErrTexts(Taken(s)) + s.errorChan == s.errors
  }

  lemma HeadMoved(taken: seq<string>, channel: seq<string>, all: seq<string>)
    requires channel != [] && taken + channel == all
    ensures (taken + [channel[0]]) + channel[1..] == all
  {
  }

  lemma TakeLogAccounted(s: State)
    requires Enabled(s, TakeLog) && Accounted(s)
    ensures Accounted(Next(s, TakeLog))
  {
    TakenStep(s, TakeLog);
    TextsSnoc(Taken(s), Log(s.logChan[0]));
    HeadMoved(LogTexts(Taken(s)), s.logChan, s.logs);
    assert ErrTexts(Taken(s)) + [] == ErrTexts(Taken(s));
  }

  lemma TakeErrorAccounted(s: State)
    requires Enabled(s, TakeError) && Accounted(s)
    ensures Accounted(Next(s, TakeError))
  {
    TakenStep(s, TakeError);
    TextsSnoc(Taken(s), Err(s.errorChan[0]));
    HeadMoved(ErrTexts(Taken(s)), s.errorChan, s.errors);
    assert LogTexts(Taken(s)) + [] == LogTexts(Taken(s));
  }

  /** The two histories stay accounted for. */
  lemma StepAccounted(s: State, step: Step)
    requires Enabled(s, step) && Accounted(s)
    ensures Accounted(Next(s, step))
  {
    if step.TakeLog? {
      TakeLogAccounted(s);
    } else if step.TakeError? {
      TakeErrorAccounted(s);
    } else {
      TakenStep(s, step);
      assert Taken(s) + [] == Taken(s);
    }
  }

  lemma StepKeepsInvariant(s: State, step: Step)
    requires Invariant(s) && Enabled(s, step)
    ensures Invariant(Next(s, step))
  {
    StepAccounted(s, step);
  }

  lemma {:induction false} RunKeepsInvariant(s: State, steps: seq<Step>)
    requires Invariant(s) && CanRun(s, steps)
    ensures Invariant(Run(s, steps))
    decreases |steps|
  {
    if steps != [] {
      StepKeepsInvariant(s, steps[0]);
      RunKeepsInvariant(Next(s, steps[0]), steps[1..]);
    }
  }

  lemma {:induction false} TextsPrefix(a: seq<Message>, b: seq<Message>)
    ensures LogTexts(a) <= LogTexts(a + b) && ErrTexts(a) <= ErrTexts(a + b)
    ensures |LogTexts(a + b)| <= |LogTexts(a)| + |b| && |ErrTexts(a + b)| <= |ErrTexts(a)| + |b|
    ensures |LogTexts(a + b)| + |ErrTexts(a + b)| == |LogTexts(a)| + |ErrTexts(a)| + |b|
    decreases b
  {
    if b == [] {
      assert a + b == a;
    } else {
      var front, last := b[..|b| - 1], b[|b| - 1];
      TextsPrefix(a, front);
      TextsSnoc(a + front, last);
      assert a + b == a + front + [last];
    }
  }

  lemma ReachableInvariant(steps: seq<Step>)
    requires CanRun(INIT, steps)
    ensures Invariant(Run(INIT, steps))
  {
    assert Taken(INIT) == [];
    RunKeepsInvariant(INIT, steps);
  }

  /**
   In every interleaving: the logs printed are a prefix of the logs sent, likewise the errors; at most
   22 of either kind, and 32 of both, are sent and not yet printed.
   */
  lemma PipelineSafety(steps: seq<Step>)
    requires CanRun(INIT, steps)
    ensures var s := Run(INIT, steps);
            && LogTexts(s.printed) <= s.logs && ErrTexts(s.printed) <= s.errors
            && |s.logs| - |LogTexts(s.printed)| <= 22
            && |s.errors| - |ErrTexts(s.printed)| <= 22
            && |s.logs| + |s.errors| - |s.printed| <= 32
  {
    var s := Run(INIT, steps);
    ReachableInvariant(steps);
    var rest := HeldByPrinter(s) + s.outputChan + HeldByReader(s);
    assert Taken(s) == s.printed + rest;
    TextsPrefix(s.printed, rest);
    TextsPrefix([], s.printed);
    assert [] + s.printed == s.printed;
  }

  /** A reader that has returned at the closed channel has passed every log on; only errors can be left behind. */
  lemma FinishedPassedEveryLog(steps: seq<Step>)
    requires CanRun(INIT, steps) && Run(INIT, steps).reader.Finished?
    ensures var s := Run(INIT, steps);
            LogTexts(Entered(s)) == s.logs && ErrTexts(Entered(s)) + s.errorChan == s.errors
  {
    var s := Run(INIT, steps);
    ReachableInvariant(steps);
    assert Taken(s) == Entered(s);
    assert LogTexts(Taken(s)) + [] == LogTexts(Taken(s));
  }

  // ---------- stopping ----------

  /**
   Once the stop signal is received, no callback runs and nothing enters the output channel, whatever
   happens afterwards; what had entered is still all there.
   */
  lemma {:induction false} StopIsFinal(s: State, steps: seq<Step>)
    requires s.reader.Stopped? && CanRun(s, steps)
    ensures Run(s, steps).reader.Stopped?
    ensures Entered(Run(s, steps)) == Entered(s)
    ensures forall i :: 0 <= i < |steps| ==> !steps[i].TakeLog? && !steps[i].TakeError? && !steps[i].Push?
    decreases |steps|
  {
    if steps != [] {
      EnteredStep(s, steps[0]);
      StopIsFinal(Next(s, steps[0]), steps[1..]);
      assert forall i :: 1 <= i < |steps| ==> steps[i] == steps[1..][i - 1];
    }
  }

  /** A reader that returned at a closed channel never receives the signal: StopTailing then blocks for good. */
  lemma {:induction false} StopAfterCloseBlocks(s: State, steps: seq<Step>)
    requires s.reader.Finished? && !s.stopper.Received? && !s.stopper.Closed? && CanRun(s, steps)
    ensures Run(s, steps).reader.Finished?
    ensures Run(s, steps).stopper.Idle? || Run(s, steps).stopper.Waiting?
    ensures Entered(Run(s, steps)) == Entered(s)
    decreases |steps|
  {
    if steps != [] {
      EnteredStep(s, steps[0]);
      StopAfterCloseBlocks(Next(s, steps[0]), steps[1..]);
    }
  }

  /** The next step on the way to a closed consumer. */
  function TowardsClosed(s: State): Step {
    if s.reader.Calling? then
      if |s.outputChan| < CAPACITY then Push else if s.printer.Holding? then Say else Fetch
    else if s.reader.Selecting? then
      if s.stopper.Idle? then RequestStop else ReceiveStop
    else CloseConsumer
  }

  /** How many such steps are left at most. */
  function StepsToClosed(s: State): nat {
    if s.reader.Calling? then 5 + (if |s.outputChan| < CAPACITY then 0 else if s.printer.Holding? then 2 else 1)
    else if s.reader.Selecting? then (if s.stopper.Idle? then 4 else 3)
    else if s.stopper.Closed? then 0 else 1
  }

  /** Unless the reader has returned, StopTailing can still be received and return, full buffers or not. */
  lemma {:induction false} StopReachable(s: State) returns (steps: seq<Step>)
    requires Invariant(s) && !s.reader.Finished?
    ensures CanRun(s, steps) && Run(s, steps).stopper.Closed?
    decreases StepsToClosed(s)
  {
    if s.stopper.Closed? {
      steps := [];
    } else {
      var step := TowardsClosed(s);
      StepKeepsInvariant(s, step);
      var rest := StopReachable(Next(s, step));
      steps := [step] + rest;
      assert steps[1..] == rest;
    }
  }

  /**
   From a reachable state StopTailing can be made to return if and only if the reader has not returned at a
   closed channel.
   */
  lemma StoppableExactly(steps: seq<Step>)
    requires CanRun(INIT, steps)
    ensures (exists more :: CanRun(Run(INIT, steps), more) && Run(Run(INIT, steps), more).stopper.Closed?)
            <==> !Run(INIT, steps).reader.Finished?
  {
    var s := Run(INIT, steps);
    ReachableInvariant(steps);
    if s.reader.Finished? {
      forall more | CanRun(s, more) ensures !Run(s, more).stopper.Closed? {
        StopAfterCloseBlocks(s, more);
      }
    } else {
      var more := StopReachable(s);
    }
  }

  /**
   The blocked state is reachable: the consumer closes its channel, the reader sees it, and then
   StopTailing is called.
   */
  lemma StopBlocksOnSomeRun() returns (steps: seq<Step>)
    ensures CanRun(INIT, steps) && Run(INIT, steps).reader.Finished? && Run(INIT, steps).stopper.Waiting?
  {
    steps := [CloseLogs, SeeClosed, RequestStop];
    var s1 := Next(INIT, CloseLogs);
    var s2 := Next(s1, SeeClosed);
    assert steps[1..] == [SeeClosed, RequestStop] && steps[1..][1..] == [RequestStop] && [RequestStop][1..] == [];
    assert Run(s2, [RequestStop]) == Next(s2, RequestStop);
  }

  // ---------- draining ----------

  /** The steps that move a message one place further. */
  predicate Moves(step: Step) {
    step.TakeLog? || step.TakeError? || step.Push? || step.Fetch? || step.Say?
  }

  /** How many places the messages under way still have to go. */
  function Distance(s: State): nat {
    4 * |s.logChan| + 4 * |s.errorChan| + 3 * |HeldByReader(s)| + 2 * |s.outputChan| + |HeldByPrinter(s)|
  }

  /** The reader is neither stopped nor finished. */
  predicate Running(s: State) {
    s.reader.Selecting? || s.reader.Calling?
  }

  /**
   A pipeline whose reader is neither stopped nor finished is never stuck: something can move while
   anything is under way.
   */
  lemma NeverStuck(s: State) returns (step: Step)
    requires Running(s) && Distance(s) > 0
    ensures Moves(step) && Enabled(s, step)
  {
    if s.printer.Holding? {
      step := Say;
    } else if s.outputChan != [] {
      step := Fetch;
    } else if s.reader.Calling? {
      step := Push;
    } else if s.logChan != [] {
      step := TakeLog;
    } else {
      step := TakeError;
    }
  }

  lemma MoveIsOneCloser(s: State, step: Step)
    requires Enabled(s, step) && Moves(step)
    ensures Distance(Next(s, step)) == Distance(s) - 1
    ensures Next(s, step).logs == s.logs && Next(s, step).errors == s.errors
  {
  }

  lemma MoveKeepsRunning(s: State, step: Step)
    requires Enabled(s, step) && Moves(step) && Running(s)
    ensures Running(Next(s, step))
  {
  }

  lemma {:induction false} MovesGetCloser(s: State, steps: seq<Step>)
    requires CanRun(s, steps) && forall i :: 0 <= i < |steps| ==> Moves(steps[i])
    ensures Distance(Run(s, steps)) == Distance(s) - |steps|
    ensures Run(s, steps).logs == s.logs && Run(s, steps).errors == s.errors
    ensures Running(s) ==> Running(Run(s, steps))
    decreases |steps|
  {
    if steps != [] {
      MoveIsOneCloser(s, steps[0]);
      if Running(s) {
        MoveKeepsRunning(s, steps[0]);
      }
      MovesGetCloser(Next(s, steps[0]), steps[1..]);
    }
  }

  lemma {:induction false} RunConcat(s: State, a: seq<Step>, b: seq<Step>)
    requires CanRun(s, a) && CanRun(Run(s, a), b)
    ensures CanRun(s, a + b) && Run(s, a + b) == Run(Run(s, a), b)
    decreases |a|
  {
    if a == [] {
      assert a + b == b;
    } else {
      assert (a + b)[1..] == a[1..] + b;
      RunConcat(Next(s, a[0]), a[1..], b);
    }
  }

  lemma DrainedIsPrinted(s: State)
    requires Invariant(s) && Distance(s) == 0
    ensures LogTexts(s.printed) == s.logs && ErrTexts(s.printed) == s.errors
  {
    assert Taken(s) == s.printed;
    assert LogTexts(s.printed) + [] == LogTexts(s.printed) && ErrTexts(s.printed) + [] == ErrTexts(s.printed);
  }

  lemma NothingLeftToMove(s: State)
    requires Running(s) && forall step :: Moves(step) ==> !Enabled(s, step)
    ensures Distance(s) == 0
  {
    if Distance(s) > 0 {
      var step := NeverStuck(s);
      assert false;
    }
  }

  /**
   From every reachable state, whatever order the messages under way move in, there are at most
   Distance moves, and after that many everything sent so far is on the screen. A running reader
   moves on until then: when no move is left, all of them have been made.
   */
  lemma DrainPrintsEverything(steps: seq<Step>, moves: seq<Step>)
    requires CanRun(INIT, steps) && CanRun(Run(INIT, steps), moves)
    requires forall i :: 0 <= i < |moves| ==> Moves(moves[i])
    ensures var s, t := Run(INIT, steps), Run(Run(INIT, steps), moves);
            && |moves| <= Distance(s)
            && (|moves| == Distance(s) ==> LogTexts(t.printed) == s.logs && ErrTexts(t.printed) == s.errors)
            && (Running(s) && (forall step :: Moves(step) ==> !Enabled(t, step)) ==> |moves| == Distance(s))
  {
    var s := Run(INIT, steps);
    var t := Run(s, moves);
    MovesGetCloser(s, moves);
    RunConcat(INIT, steps, moves);
    ReachableInvariant(steps + moves);
    if Distance(t) == 0 {
      DrainedIsPrinted(t);
    } else if Running(s) && forall step :: Moves(step) ==> !Enabled(t, step) {
      NothingLeftToMove(t);
      assert false;
    }
  }

  /** A running reader can always be brought to the point where everything sent is printed. */
  lemma {:induction false} DrainExists(s: State) returns (moves: seq<Step>)
    requires Running(s)
    ensures CanRun(s, moves) && (forall i :: 0 <= i < |moves| ==> Moves(moves[i])) && |moves| == Distance(s)
    decreases Distance(s)
  {
    if Distance(s) == 0 {
      moves := [];
    } else {
      var step := NeverStuck(s);
      var t := Next(s, step);
      MoveIsOneCloser(s, step);
      MoveKeepsRunning(s, step);
      var rest := DrainExists(t);
      moves := [step] + rest;
      assert moves[1..] == rest;
    }
  }

  // ---------- the bound is reached ----------

  function Xs(n: nat): (s: seq<string>)
    ensures |s| == n && forall i :: 0 <= i < n ==> s[i] == "x"
  {
    seq(n, _ => "x")
  }

  function LogXs(n: nat): (s: seq<Message>)
    ensures |s| == n && forall i :: 0 <= i < n ==> s[i] == Log("x")
  {
    seq(n, _ => Log("x"))
  }

  /** The pipeline with k lines in the output channel, one held by the printer, and n logs in the first channel. */
  function Filled(k: nat, n: nat, calling: bool): State {
    State(Xs(1 + k + n + if calling then 1 else 0), [], Xs(n), false, [],
          if calling then Calling(Log("x")) else Selecting, Idle, LogXs(k), Holding(Log("x")), [])
  }

  lemma FillOutput(k: nat)
    requires k < CAPACITY
    ensures CanRun(Filled(k, 0, false), [SendLog("x"), TakeLog, Push])
    ensures Run(Filled(k, 0, false), [SendLog("x"), TakeLog, Push]) == Filled(k + 1, 0, false)
  {
    var s := Filled(k, 0, false);
    var s1 := Next(s, SendLog("x"));
    var s2 := Next(s1, TakeLog);
    var s3 := Next(s2, Push);
    assert s1.logs == Xs(k + 2) && s1.logChan == ["x"] && s2.logChan == Xs(0);
    assert s3 == Filled(k + 1, 0, false);
    assert [SendLog("x"), TakeLog, Push][1..] == [TakeLog, Push] && [TakeLog, Push][1..] == [Push] && [Push][1..] == [];
  }

  lemma FillFirst(n: nat)
    requires n < CAPACITY
    ensures CanRun(Filled(CAPACITY, n, true), [SendLog("x")])
    ensures Run(Filled(CAPACITY, n, true), [SendLog("x")]) == Filled(CAPACITY, n + 1, true)
  {
    var s := Filled(CAPACITY, n, true);
    assert Next(s, SendLog("x")) == Filled(CAPACITY, n + 1, true) by {
      assert s.logs + ["x"] == Xs(CAPACITY + n + 3) && s.logChan + ["x"] == Xs(n + 1);
    }
    assert [SendLog("x")][1..] == [];
  }

  /** The bound on unprinted logs is met: some schedule leaves 22 logs sent and none printed. */
  lemma LagBoundReached() returns (steps: seq<Step>)
    ensures CanRun(INIT, steps)
    ensures |Run(INIT, steps).logs| == 22 && Run(INIT, steps).printed == []
  {
    steps := [SendLog("x"), TakeLog, Push, Fetch];
    FirstLine();
    var k := 0;
    while k < CAPACITY
      invariant 0 <= k <= CAPACITY && CanRun(INIT, steps) && Run(INIT, steps) == Filled(k, 0, false)
    {
      FillOutput(k);
      RunConcat(INIT, steps, [SendLog("x"), TakeLog, Push]);
      steps := steps + [SendLog("x"), TakeLog, Push];
      k := k + 1;
    }
    HoldOne();
    RunConcat(INIT, steps, [SendLog("x"), TakeLog]);
    steps := steps + [SendLog("x"), TakeLog];
    var n := 0;
    while n < CAPACITY
      invariant 0 <= n <= CAPACITY && CanRun(INIT, steps) && Run(INIT, steps) == Filled(CAPACITY, n, true)
    {
      FillFirst(n);
      RunConcat(INIT, steps, [SendLog("x")]);
      steps := steps + [SendLog("x")];
      n := n + 1;
    }
  }

  lemma FirstLine()
    ensures CanRun(INIT, [SendLog("x"), TakeLog, Push, Fetch])
    ensures Run(INIT, [SendLog("x"), TakeLog, Push, Fetch]) == Filled(0, 0, false)
  {
    var s1 := Next(INIT, SendLog("x"));
    var s2 := Next(s1, TakeLog);
    var s3 := Next(s2, Push);
    var s4 := Next(s3, Fetch);
    assert s4 == Filled(0, 0, false);
    assert [SendLog("x"), TakeLog, Push, Fetch][1..] == [TakeLog, Push, Fetch];
    assert [TakeLog, Push, Fetch][1..] == [Push, Fetch] && [Push, Fetch][1..] == [Fetch] && [Fetch][1..] == [];
  }

  lemma HoldOne()
    ensures CanRun(Filled(CAPACITY, 0, false), [SendLog("x"), TakeLog])
    ensures Run(Filled(CAPACITY, 0, false), [SendLog("x"), TakeLog]) == Filled(CAPACITY, 0, true)
  {
    var s := Filled(CAPACITY, 0, false);
    var s1 := Next(s, SendLog("x"));
    var s2 := Next(s1, TakeLog);
    assert s1.logs == Xs(CAPACITY + 2) && s1.logChan == ["x"] && s2.logChan == Xs(0);
    assert s2 == Filled(CAPACITY, 0, true);
    assert [SendLog("x"), TakeLog][1..] == [TakeLog] && [TakeLog][1..] == [];
  }
}
