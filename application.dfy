/** The console's root command of `src/application.ts`: its children and the run
    loop that feeds batch lines and prompted lines to the dispatcher. The dispatcher
    (`Command.run`, `getCommand`, `showHelp` of the base class) and the prompt are
    outside this model: the prompt is the sequence of lines it would answer, and the
    dispatcher is the sequence of outcomes its successive calls have. */
module App {

  import opened Wrappers
  import opened Text

  /** One command line, as tokens. */
  type Line = seq<string>

  /** The subcommands the application registers. */
  datatype CommandKind = Version | Close | Module | Slot | Object | Hash | Test

  datatype ChildCommand = ChildCommand(kind: CommandKind, parent: Application)

  /** What one dispatch of a line does: it runs a command that is not `close`, it runs
      the `close` command, or it throws. */
  datatype Outcome = Ran | RanClose | Threw(message: string)

  /** One turn of the loop: the line, whether it came from the batch queue (otherwise
      from the prompt), and what dispatching it did. A `Threw` turn that does not end
      the run prints the error and the help of the command the line names. */
  datatype Turn = Turn(line: Line, fromQueue: bool, outcome: Outcome)

  /** How a run ends: `run` returns (after `close`), the process exits with a status
      (`process.exit(1)`), or the modelled input ran out. */
  datatype RunEnd = Returned | ProcessExit(status: int) | OutOfInput

  /** The batch separator: a backslash followed by `n`, as typed on a command line. */
  const LineSeparator: string := "\\n"

  /** The queue `run` builds from `args[2]`: one line per piece between the two-character
      separators, each split at single spaces; nothing when `args[2]` is missing or empty. */
  function BatchQueue(args: seq<string>): (queue: seq<Line>)
    ensures |args| <= 2 || args[2] == "" ==> queue == []
    ensures forall i :: 0 <= i < |queue| ==> |queue[i]| >= 1
  {
    if |args| > 2 && args[2] != "" then
      var lines := Split(args[2], LineSeparator);
      seq(|lines|, i requires 0 <= i < |lines| => Split(lines[i], " "))
    else []
  }

  /** The lines of a queue written back in the batch syntax. */
  function BatchText(queue: seq<Line>): string
  {
    Join(seq(|queue|, i requires 0 <= i < |queue| => Join(queue[i], " ")), LineSeparator)
  }

  /** The queue holds the payload's lines in order, split at every separator: written
      back it is the payload, no token holds a space, and no line holds the line
      separator. */
  lemma BatchQueueRoundTrip(args: seq<string>)
    requires |args| > 2 && args[2] != ""
    ensures BatchText(BatchQueue(args)) == args[2]
    ensures forall i, j :: 0 <= i < |BatchQueue(args)| && 0 <= j < |BatchQueue(args)[i]| ==>
      ' ' !in BatchQueue(args)[i][j]
    ensures forall i :: 0 <= i < |BatchQueue(args)| ==> Free(Join(BatchQueue(args)[i], " "), LineSeparator)
  {
    var lines := Split(args[2], LineSeparator);
    var queue := BatchQueue(args);
    var texts := seq(|queue|, i requires 0 <= i < |queue| => Join(queue[i], " "));
    SplitPiecesFree(args[2], LineSeparator);
    forall i | 0 <= i < |lines|
      ensures texts[i] == lines[i]
      ensures Free(Join(queue[i], " "), LineSeparator)
      ensures forall j :: 0 <= j < |queue[i]| ==> ' ' !in queue[i][j]
    {
      assert queue[i] == Split(lines[i], " ");
      JoinSplit(lines[i], " ");
      SplitPiecesFree(lines[i], " ");
      forall j | 0 <= j < |queue[i]| ensures ' ' !in queue[i][j] {
        FreeChar(queue[i][j], ' ');
      }
    }
    assert texts == lines;
    JoinSplit(args[2], LineSeparator);
  }

  /** The exit test of the `catch` block, made on the queue left after taking the failing
      line: the process exits when `args` has at least 2 entries and the LAST queued
      line (not the next one) starts with `exit`. */
  predicate Fatal(argc: nat, queue: seq<Line>)
  {
    argc >= 2 && |queue| > 0 && |queue[|queue| - 1]| > 0 && queue[|queue| - 1][0] == "exit"
  }

  /** The run as the loop performs it: how it ends and its turns, given the number of
      command-line arguments, the queue, the prompt's answers and the dispatcher's
      outcomes. */
  function Drive(argc: nat, queue: seq<Line>, prompts: seq<Line>, outcomes: seq<Outcome>): (RunEnd, seq<Turn>)
    decreases |outcomes|
  {
    if |outcomes| == 0 || (|queue| == 0 && |prompts| == 0) then (OutOfInput, [])
    else
      var fromQueue := |queue| > 0;
      var line := if fromQueue then queue[0] else prompts[0];
      var queue' := if fromQueue then queue[1..] else queue;
      var prompts' := if fromQueue then prompts else prompts[1..];
      var turn := Turn(line, fromQueue, outcomes[0]);
      if outcomes[0] == RanClose then (Returned, [turn])
      else if outcomes[0].Threw? && Fatal(argc, queue') then (ProcessExit(1), [turn])
      else
        var rest := Drive(argc, queue', prompts', outcomes[1..]);
        (rest.0, [turn] + rest.1)
  }

  /** One turn of `Drive`, taken apart. */
  lemma DriveStep(argc: nat, queue: seq<Line>, prompts: seq<Line>, outcomes: seq<Outcome>)
    requires |outcomes| > 0 && (|queue| > 0 || |prompts| > 0)
    ensures var fromQueue := |queue| > 0;
      var queue' := if fromQueue then queue[1..] else queue;
      var prompts' := if fromQueue then prompts else prompts[1..];
      var turn := Turn(if fromQueue then queue[0] else prompts[0], fromQueue, outcomes[0]);
      var stop := outcomes[0] == RanClose || (outcomes[0].Threw? && Fatal(argc, queue'));
      Drive(argc, queue, prompts, outcomes) ==
        if outcomes[0] == RanClose then (Returned, [turn])
        else if stop then (ProcessExit(1), [turn])
        else (Drive(argc, queue', prompts', outcomes[1..]).0, [turn] + Drive(argc, queue', prompts', outcomes[1..]).1)
  {
  }

  /** One turn of `Drive` from position `p` of the prompts and `k` of the outcomes. */
  lemma DriveAt(argc: nat, queue: seq<Line>, prompts: seq<Line>, outcomes: seq<Outcome>, p: nat, k: nat)
    requires p <= |prompts| && k < |outcomes| && (|queue| > 0 || p < |prompts|)
    ensures var fromQueue := |queue| > 0;
      var queue' := if fromQueue then queue[1..] else queue;
      var p' := if fromQueue then p else p + 1;
      var turn := Turn(if fromQueue then queue[0] else prompts[p], fromQueue, outcomes[k]);
      var after := Drive(argc, queue', prompts[p'..], outcomes[k + 1..]);
      Drive(argc, queue, prompts[p..], outcomes[k..]) ==
        if outcomes[k] == RanClose then (Returned, [turn])
        else if outcomes[k].Threw? && Fatal(argc, queue') then (ProcessExit(1), [turn])
        else (after.0, [turn] + after.1)
  {
    assert |queue| == 0 ==> prompts[p..][1..] == prompts[p + 1..];
    assert outcomes[k..][1..] == outcomes[k + 1..];
    DriveStep(argc, queue, prompts[p..], outcomes[k..]);
  }

  /** One iteration of the loop of `run`, as `Drive` sees it: with the turns so far
      followed by the rest of the run making up the whole run, the step either ends
      the run or leaves the same relation for the next position. */
  lemma LoopStep(argc: nat, queue: seq<Line>, prompts: seq<Line>, outcomes: seq<Outcome>,
                 p: nat, k: nat, turns: seq<Turn>, whole: (RunEnd, seq<Turn>))
    requires p <= |prompts| && k < |outcomes| && (|queue| > 0 || p < |prompts|)
    requires whole.0 == Drive(argc, queue, prompts[p..], outcomes[k..]).0
    requires whole.1 == turns + Drive(argc, queue, prompts[p..], outcomes[k..]).1
    ensures var fromQueue := |queue| > 0;
      var queue' := if fromQueue then queue[1..] else queue;
      var p' := if fromQueue then p else p + 1;
      var turns' := turns + [Turn(if fromQueue then queue[0] else prompts[p], fromQueue, outcomes[k])];
      if outcomes[k] == RanClose then whole == (Returned, turns')
      else if outcomes[k].Threw? && Fatal(argc, queue') then whole == (ProcessExit(1), turns')
      else (whole.0 == Drive(argc, queue', prompts[p'..], outcomes[k + 1..]).0 &&
            whole.1 == turns' + Drive(argc, queue', prompts[p'..], outcomes[k + 1..]).1)
  {
    var fromQueue := |queue| > 0;
    var queue' := if fromQueue then queue[1..] else queue;
    var p' := if fromQueue then p else p + 1;
    var turn := Turn(if fromQueue then queue[0] else prompts[p], fromQueue, outcomes[k]);
    var turns' := turns + [turn];
    DriveAt(argc, queue, prompts, outcomes, p, k);
    var now := Drive(argc, queue, prompts[p..], outcomes[k..]);
    var after := Drive(argc, queue', prompts[p'..], outcomes[k + 1..]);
    if outcomes[k] == RanClose {
      assert now == (Returned, [turn]);
    } else if outcomes[k].Threw? && Fatal(argc, queue') {
      assert now == (ProcessExit(1), [turn]);
    } else {
      assert now == (after.0, [turn] + after.1);
      assert turns + ([turn] + after.1) == turns' + after.1;
    }
  }

  /** The turns of `Drive`. */
  function Turns(argc: nat, queue: seq<Line>, prompts: seq<Line>, outcomes: seq<Outcome>): seq<Turn>
  {
    Drive(argc, queue, prompts, outcomes).1
  }

  /** Lines are dispatched strictly in order: the batch lines first, front to back, and
      only then, with the queue empty, the prompt's answers; turn `i` gets the `i`-th
      outcome. */
  lemma {:induction false} DriveOrder(argc: nat, queue: seq<Line>, prompts: seq<Line>, outcomes: seq<Outcome>)
    ensures |Turns(argc, queue, prompts, outcomes)| <= |outcomes|
    ensures |Turns(argc, queue, prompts, outcomes)| <= |queue| + |prompts|
    ensures forall i :: 0 <= i < |Turns(argc, queue, prompts, outcomes)| ==>
      Turns(argc, queue, prompts, outcomes)[i].outcome == outcomes[i] &&
      Turns(argc, queue, prompts, outcomes)[i].fromQueue == (i < |queue|) &&
      Turns(argc, queue, prompts, outcomes)[i].line == if i < |queue| then queue[i] else prompts[i - |queue|]
    decreases |outcomes|
  {
    if |outcomes| > 0 && (|queue| > 0 || |prompts| > 0) {
      var fromQueue := |queue| > 0;
      var queue' := if fromQueue then queue[1..] else queue;
      var prompts' := if fromQueue then prompts else prompts[1..];
      DriveOrder(argc, queue', prompts', outcomes[1..]);
      var turns := Turns(argc, queue, prompts, outcomes);
      var rest := Turns(argc, queue', prompts', outcomes[1..]);
      var turn := Turn(if fromQueue then queue[0] else prompts[0], fromQueue, outcomes[0]);
      DriveStep(argc, queue, prompts, outcomes);
      assert turns == [turn] || turns == [turn] + rest;
      forall i | 1 <= i < |turns|
        ensures turns[i].outcome == outcomes[i]
        ensures turns[i].fromQueue == (i < |queue|)
        ensures turns[i].line == if i < |queue| then queue[i] else prompts[i - |queue|]
      {
        assert turns == [turn] + rest;
        OrderShift(queue, prompts, outcomes, rest, i);
      }
    }
  }

  /** Turn `i` of a run is turn `i - 1` of the run that starts one line later. */
  lemma OrderShift(queue: seq<Line>, prompts: seq<Line>, outcomes: seq<Outcome>, rest: seq<Turn>, i: nat)
    requires |outcomes| > 0 && (|queue| > 0 || |prompts| > 0) && 1 <= i <= |rest|
    requires i < |outcomes| && i < |queue| + |prompts|
    requires var queue' := if |queue| > 0 then queue[1..] else queue;
      var prompts' := if |queue| > 0 then prompts else prompts[1..];
      rest[i - 1].outcome == outcomes[1..][i - 1] &&
      rest[i - 1].fromQueue == (i - 1 < |queue'|) &&
      rest[i - 1].line == if i - 1 < |queue'| then queue'[i - 1] else prompts'[i - 1 - |queue'|]
    ensures rest[i - 1].outcome == outcomes[i]
    ensures rest[i - 1].fromQueue == (i < |queue|)
    ensures rest[i - 1].line == if i < |queue| then queue[i] else prompts[i - |queue|]
  {
  }

  /** The queue left after `k` lines were taken from it. */
  function Remaining(queue: seq<Line>, k: nat): seq<Line>
  {
    if k < |queue| then queue[k..] else []
  }

  /** Every turn but the last continues the loop: none of them ran `close`, and none
      threw while the queue left after it was fatal. */
  lemma {:induction false} DriveContinues(argc: nat, queue: seq<Line>, prompts: seq<Line>, outcomes: seq<Outcome>)
    ensures forall i :: 0 <= i < |Turns(argc, queue, prompts, outcomes)| - 1 ==>
      Turns(argc, queue, prompts, outcomes)[i].outcome != RanClose &&
      !(Turns(argc, queue, prompts, outcomes)[i].outcome.Threw? && Fatal(argc, Remaining(queue, i + 1)))
    decreases |outcomes|
  {
    if |outcomes| > 0 && (|queue| > 0 || |prompts| > 0) {
      var fromQueue := |queue| > 0;
      var queue' := if fromQueue then queue[1..] else queue;
      var prompts' := if fromQueue then prompts else prompts[1..];
      var stop := outcomes[0] == RanClose || (outcomes[0].Threw? && Fatal(argc, queue'));
      if !stop {
        var turns := Turns(argc, queue, prompts, outcomes);
        var rest := Turns(argc, queue', prompts', outcomes[1..]);
        assert turns == [Turn(if fromQueue then queue[0] else prompts[0], fromQueue, outcomes[0])] + rest;
        DriveContinues(argc, queue', prompts', outcomes[1..]);
        forall i | 0 <= i < |turns| - 1
          ensures turns[i].outcome != RanClose && !(turns[i].outcome.Threw? && Fatal(argc, Remaining(queue, i + 1)))
        {
          if i == 0 {
            assert Remaining(queue, 1) == queue';
          } else {
            assert turns[i] == rest[i - 1];
            assert 0 <= i - 1 < |rest| - 1;
            assert rest[i - 1].outcome != RanClose;
            assert !(rest[i - 1].outcome.Threw? && Fatal(argc, Remaining(queue', i)));
            RemainingAfterOne(queue, i);
            assert Remaining(queue', i) == Remaining(queue, i + 1);
          }
        }
      }
    }
  }

  /** Taking one line off the queue, if there is one, shifts what remains by one. */
  lemma RemainingAfterOne(queue: seq<Line>, k: nat)
    ensures Remaining(if |queue| > 0 then queue[1..] else queue, k) == Remaining(queue, k + 1)
  {
  }

  /** How a run with these turns ends, read off its last turn: it returns exactly when
      the last turn ran `close`, it exits with status 1 exactly when the last turn
      threw while the queue left after it (`queue` less the lines taken) was fatal, and
      there is no other way for it to stop. */
  predicate EndsAtLastTurn(argc: nat, queue: seq<Line>, end: RunEnd, turns: seq<Turn>)
  {
    (end == Returned <==> |turns| > 0 && turns[|turns| - 1].outcome == RanClose) &&
    (end == ProcessExit(1) <==>
      |turns| > 0 && turns[|turns| - 1].outcome.Threw? && Fatal(argc, Remaining(queue, |turns|))) &&
    (end.Returned? || end == ProcessExit(1) || end.OutOfInput?)
  }

  /** The run ends in one of three ways: it returns exactly when its last turn ran
      `close`; it exits with status 1 exactly when its last turn threw while the queue
      left after it was fatal; otherwise the modelled input ran out. */
  lemma {:induction false} DriveEnds(argc: nat, queue: seq<Line>, prompts: seq<Line>, outcomes: seq<Outcome>)
    ensures EndsAtLastTurn(argc, queue, Drive(argc, queue, prompts, outcomes).0, Turns(argc, queue, prompts, outcomes))
    ensures Drive(argc, queue, prompts, outcomes).0.OutOfInput? ==>
      |Turns(argc, queue, prompts, outcomes)| == |outcomes| ||
      |Turns(argc, queue, prompts, outcomes)| == |queue| + |prompts|
    decreases |outcomes|
  {
    if |outcomes| > 0 && (|queue| > 0 || |prompts| > 0) {
      var fromQueue := |queue| > 0;
      var queue' := if fromQueue then queue[1..] else queue;
      var prompts' := if fromQueue then prompts else prompts[1..];
      if outcomes[0] == RanClose || (outcomes[0].Threw? && Fatal(argc, queue')) {
        EndsAtFirst(argc, queue, prompts, outcomes);
      } else {
        DriveEnds(argc, queue', prompts', outcomes[1..]);
        EndsAfterFirst(argc, queue, prompts, outcomes);
      }
    }
  }

  /** `DriveEnds` when the first turn stops the run. */
  lemma EndsAtFirst(argc: nat, queue: seq<Line>, prompts: seq<Line>, outcomes: seq<Outcome>)
    requires |outcomes| > 0 && (|queue| > 0 || |prompts| > 0)
    requires var queue' := if |queue| > 0 then queue[1..] else queue;
      outcomes[0] == RanClose || (outcomes[0].Threw? && Fatal(argc, queue'))
    ensures EndsAtLastTurn(argc, queue, Drive(argc, queue, prompts, outcomes).0, Turns(argc, queue, prompts, outcomes))
  {
    var queue' := if |queue| > 0 then queue[1..] else queue;
    DriveStep(argc, queue, prompts, outcomes);
    assert Remaining(queue, 1) == queue';
  }

  /** `DriveEnds` when the first turn lets the run go on: how the rest of the run ends
      is how the whole run ends. */
  lemma EndsAfterFirst(argc: nat, queue: seq<Line>, prompts: seq<Line>, outcomes: seq<Outcome>)
    requires |outcomes| > 0 && (|queue| > 0 || |prompts| > 0)
    requires var queue' := if |queue| > 0 then queue[1..] else queue;
      !(outcomes[0] == RanClose || (outcomes[0].Threw? && Fatal(argc, queue')))
    requires var queue' := if |queue| > 0 then queue[1..] else queue;
      var prompts' := if |queue| > 0 then prompts else prompts[1..];
      EndsAtLastTurn(argc, queue', Drive(argc, queue', prompts', outcomes[1..]).0, Turns(argc, queue', prompts', outcomes[1..])) &&
      (Drive(argc, queue', prompts', outcomes[1..]).0.OutOfInput? ==>
        |Turns(argc, queue', prompts', outcomes[1..])| == |outcomes[1..]| ||
        |Turns(argc, queue', prompts', outcomes[1..])| == |queue'| + |prompts'|)
    ensures EndsAtLastTurn(argc, queue, Drive(argc, queue, prompts, outcomes).0, Turns(argc, queue, prompts, outcomes))
    ensures Drive(argc, queue, prompts, outcomes).0.OutOfInput? ==>
      |Turns(argc, queue, prompts, outcomes)| == |outcomes| ||
      |Turns(argc, queue, prompts, outcomes)| == |queue| + |prompts|
  {
    var fromQueue := |queue| > 0;
    var queue' := if fromQueue then queue[1..] else queue;
    var prompts' := if fromQueue then prompts else prompts[1..];
    var turn := Turn(if fromQueue then queue[0] else prompts[0], fromQueue, outcomes[0]);
    DriveStep(argc, queue, prompts, outcomes);
    var rest := Drive(argc, queue', prompts', outcomes[1..]);
    assert Drive(argc, queue, prompts, outcomes) == (rest.0, [turn] + rest.1);
    assert Remaining(queue, 1) == queue';
    RemainingAfterOne(queue, |rest.1|);
    EndsShift(argc, queue, queue', turn, rest.0, rest.1);
  }

  /** A turn that neither ran `close` nor failed fatally, put in front of a run, leaves
      how the run ends as it was. */
  lemma EndsShift(argc: nat, queue: seq<Line>, queue': seq<Line>, turn: Turn, end: RunEnd, rest: seq<Turn>)
    requires queue' == Remaining(queue, 1)
    requires Remaining(queue', |rest|) == Remaining(queue, |rest| + 1)
    requires turn.outcome != RanClose && !(turn.outcome.Threw? && Fatal(argc, queue'))
    requires EndsAtLastTurn(argc, queue', end, rest)
    ensures EndsAtLastTurn(argc, queue, end, [turn] + rest)
  {
    var turns := [turn] + rest;
    if |rest| > 0 {
      assert turns[|turns| - 1] == rest[|rest| - 1];
    }
  }

  /** A failure is fatal exactly when `args` has at least 2 entries, the failing line
      came from the queue and was not its last line, and the batch's last line starts
      with `exit`; with nothing left in the queue a failure is never fatal. */
  lemma FatalLastLine(argc: nat, queue: seq<Line>, k: nat)
    ensures Fatal(argc, Remaining(queue, k)) <==>
      argc >= 2 && k < |queue| && |queue[|queue| - 1]| > 0 && queue[|queue| - 1][0] == "exit"
  {
  }

  /** The lines of the batch `slot list`, `object list --slot 0`, `exit`. */
  lemma ExampleLines()
    ensures Split("slot list\\nobject list --slot 0\\nexit", LineSeparator)
      == ["slot list", "object list --slot 0", "exit"]
  {
    assert "slot list\\nobject list --slot 0\\nexit"
      == "slot list" + LineSeparator + "object list --slot 0" + LineSeparator + "exit";
    SplitThree("slot list", "object list --slot 0", "exit", LineSeparator);
  }

  /** The tokens of the line `slot list`. */
  lemma ExampleFirstTokens()
    ensures Split("slot list", " ") == ["slot", "list"]
  {
    var tokens := ["slot", "list"];
    JoinCons(tokens[0], [tokens[1]], " ");
    assert tokens == [tokens[0]] + [tokens[1]];
    assert Join([tokens[1]], " ") == "list";
    assert Join(tokens, " ") == "slot list";
    SplitJoin(tokens, " ");
  }

  /** The tokens of the line `object list --slot 0`. */
  lemma ExampleSecondTokens()
    ensures Split("object list --slot 0", " ") == ["object", "list", "--slot", "0"]
  {
    var tokens := ["object", "list", "--slot", "0"];
    JoinCons(tokens[2], [tokens[3]], " ");
    assert tokens[2..] == [tokens[2]] + [tokens[3]];
    JoinCons(tokens[1], tokens[2..], " ");
    assert tokens[1..] == [tokens[1]] + tokens[2..];
    JoinCons(tokens[0], tokens[1..], " ");
    assert tokens == [tokens[0]] + tokens[1..];
    assert Join(tokens, " ") == "object list --slot 0";
    SplitJoin(tokens, " ");
  }

  /** The line `exit` is one token. */
  lemma ExampleThirdTokens()
    ensures Split("exit", " ") == ["exit"]
  {
    SplitJoin(["exit"], " ");
  }

  /** A payload of three lines queues the tokens of each line, in order. */
  lemma QueueOfThree(args: seq<string>, l0: string, l1: string, l2: string,
                     t0: Line, t1: Line, t2: Line)
    requires |args| > 2 && args[2] != ""
    requires Split(args[2], LineSeparator) == [l0, l1, l2]
    requires Split(l0, " ") == t0 && Split(l1, " ") == t1 && Split(l2, " ") == t2
    ensures BatchQueue(args) == [t0, t1, t2]
  {
    var queue := BatchQueue(args);
    assert |queue| == 3;
    assert queue[0] == t0 && queue[1] == t1 && queue[2] == t2;
  }

  /** The queue of the batch `slot list`, `object list --slot 0`, `exit`. */
  lemma ExampleBatch()
    ensures BatchQueue(["node", "cli", "slot list\\nobject list --slot 0\\nexit"])
      == [["slot", "list"], ["object", "list", "--slot", "0"], ["exit"]]
  {
    ExampleLines();
    ExampleFirstTokens();
    ExampleSecondTokens();
    ExampleThirdTokens();
    QueueOfThree(["node", "cli", "slot list\\nobject list --slot 0\\nexit"],
      "slot list", "object list --slot 0", "exit",
      ["slot", "list"], ["object", "list", "--slot", "0"], ["exit"]);
  }

  /** The batch `slot list`, `object list --slot 0`, `exit` given as the payload: when
      its second line throws, the process exits with status 1, since the batch ends
      with `exit`. */
  lemma BatchFailureExits()
    ensures Drive(3, BatchQueue(["node", "cli", "slot list\\nobject list --slot 0\\nexit"]), [], [Ran, Threw("failed")])
      == (ProcessExit(1), [Turn(["slot", "list"], true, Ran),
                           Turn(["object", "list", "--slot", "0"], true, Threw("failed"))])
  {
    ExampleBatch();
    var queue: seq<Line> := [["slot", "list"], ["object", "list", "--slot", "0"], ["exit"]];
    var outcomes := [Ran, Threw("failed")];
    assert queue[1..] == [["object", "list", "--slot", "0"], ["exit"]];
    assert queue[1..][1..] == [["exit"]];
    assert outcomes[1..] == [Threw("failed")];
    assert Fatal(3, [["exit"]]);
    var second := Turn(["object", "list", "--slot", "0"], true, Threw("failed"));
    DriveStep(3, queue[1..], [], outcomes[1..]);
    assert Drive(3, queue[1..], [], outcomes[1..]) == (ProcessExit(1), [second]);
    DriveStep(3, queue, [], outcomes);
    var first := Turn(["slot", "list"], true, Ran);
    assert Drive(3, queue, [], outcomes) == (ProcessExit(1), [first] + [second]);
    assert [first] + [second] == [first, second];
  }

  /** The exit test looks at the last queued line, not the next one: a failure followed by
      `exit` and then another line is not fatal, while a failure followed by another
      line and then `exit` is. */
  lemma FatalChecksLastLine()
    ensures Drive(3, [["a"], ["exit"], ["b"]], [], [Threw("failed")]).0 == OutOfInput
    ensures Drive(3, [["a"], ["b"], ["exit"]], [], [Threw("failed")]).0 == ProcessExit(1)
  {
    assert Fatal(3, [["b"], ["exit"]]);
  }

  /** Typing `close` at the prompt ends the run without another prompt. */
  lemma PromptedCloseReturns(prompts: seq<Line>, outcomes: seq<Outcome>)
    requires |prompts| >= 1 && |outcomes| >= 1 && outcomes[0] == RanClose
    ensures Drive(2, [], prompts, outcomes) == (Returned, [Turn(prompts[0], false, RanClose)])
  {
  }

  class Application {

    const name: string
    const description: string
    /** The children, in registration order. */
    var commands: seq<ChildCommand>

    /** Registers the children in the order version, close, module, slot, object,
        hash, test, each with this application as its parent. */
    constructor ()
      ensures name == "graphene"
      ensures commands == [ChildCommand(Version, this), ChildCommand(Close, this),
        ChildCommand(Module, this), ChildCommand(Slot, this), ChildCommand(Object, this),
        ChildCommand(Hash, this), ChildCommand(Test, this)]
    {
      name := "graphene";
      description := "The graphene-cli is a cross-platform command line tool for working with PKCS#11 devices";
      commands := [];
      new;
      ghost var children := [ChildCommand(Version, this), ChildCommand(Close, this),
        ChildCommand(Module, this), ChildCommand(Slot, this), ChildCommand(Object, this),
        ChildCommand(Hash, this), ChildCommand(Test, this)];
      commands := commands + [ChildCommand(Version, this)];
      assert commands == children[..1];
      commands := commands + [ChildCommand(Close, this)];
      assert commands == children[..2];
      commands := commands + [ChildCommand(Module, this)];
      assert commands == children[..3];
      commands := commands + [ChildCommand(Slot, this)];
      assert commands == children[..4];
      commands := commands + [ChildCommand(Object, this)];
      assert commands == children[..5];
      commands := commands + [ChildCommand(Hash, this)];
      assert commands == children[..6];
      commands := commands + [ChildCommand(Test, this)];
      assert commands == children[..7];
    }

    /** `run(args)`: builds the batch queue, then repeatedly takes the next queued line
        (or, with the queue empty, the prompt's next answer) and dispatches it, until a
        `close` runs, a fatal failure exits the process, or the modelled input runs out.
        It returns this application exactly when the run ended at `close`. */
    method Run(args: seq<string>, prompts: seq<Line>, outcomes: seq<Outcome>)
      returns (result: Application?, end: RunEnd, turns: seq<Turn>)
      ensures (end, turns) == Drive(|args|, BatchQueue(args), prompts, outcomes)
      ensures result == if end == Returned then this else null
    {
      var queue := BatchQueue(args);
      ghost var whole := Drive(|args|, queue, prompts, outcomes);
      var repeat := true;
      var p, k := 0, 0;
      turns := [];
      end := OutOfInput;
      while repeat && k < |outcomes| && (|queue| > 0 || p < |prompts|)
        invariant 0 <= p <= |prompts| && 0 <= k <= |outcomes|
        invariant repeat ==> end == OutOfInput
        invariant repeat ==> whole.0 == Drive(|args|, queue, prompts[p..], outcomes[k..]).0
        invariant repeat ==> whole.1 == turns + Drive(|args|, queue, prompts[p..], outcomes[k..]).1
        invariant !repeat ==> whole == (end, turns)
        decreases |outcomes| - k, repeat
      {
        ghost var oldQueue, oldP, oldK := queue, p, k;
        var line: Line;
        var fromQueue := |queue| > 0;
        if fromQueue {
          line := queue[0];
          queue := queue[1..];
        } else {
          line := prompts[p];
          p := p + 1;
        }
        var outcome := outcomes[k];
        k := k + 1;
        var turn := Turn(line, fromQueue, outcome);
        LoopStep(|args|, oldQueue, prompts, outcomes, oldP, oldK, turns, whole);
        turns := turns + [turn];
        match outcome
        case RanClose =>
          repeat := false;
          end := Returned;
        case Ran =>
        case Threw(message) =>
          var last := if |queue| > 0 then Some(queue[|queue| - 1]) else None;
          var fatal := |args| >= 2 && last.Some? && |last.value| > 0 && last.value[0] == "exit";
          assert fatal == Fatal(|args|, queue);
          if fatal {
            repeat := false;
            end := ProcessExit(1);
          }
      }
      if repeat {
        assert Drive(|args|, queue, prompts[p..], outcomes[k..]) == (OutOfInput, []);
        assert turns + [] == turns;
      }
      result := if end == Returned then this else null;
    }

    /** `onRun`: shows this command's help and returns this command. */
    method OnRun(args: Line) returns (result: Application, helpOf: string)
      ensures result == this && helpOf == name
    {
      result := this;
      helpOf := name;
    }
  }
}
