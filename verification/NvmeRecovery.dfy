/** What can happen after a bring-up that starts with host and controller in disagreement. */
module NvmeRecovery {
  import opened NvmeProtocol
  import opened NvmeRestart

  // ----- the steps as functions -----

  function AfterSubmit(s: State, command: Command): State
    requires s.sqTail < |s.sq|
  {
    var tail := (s.sqTail + 1) % DEPTH;
    s.(sq := s.sq[s.sqTail := command], sqTail := tail, sqDoorbell := tail, waiting := true,
       submitted := s.submitted + [command])
  }

  function AfterFetch(s: State): State
    requires s.sqHead < |s.sq|
  {
    s.(sqHead := (s.sqHead + 1) % DEPTH, inFlight := s.inFlight + [s.sq[s.sqHead]])
  }

  function AfterComplete(s: State, i: nat, status: nat): State
    requires i < |s.inFlight| && s.cqTail < |s.cq|
  {
    var command, tail := s.inFlight[i], (s.cqTail + 1) % DEPTH;
    s.(cq := s.cq[s.cqTail := Completion(command.cid, status, s.phase)], cqTail := tail,
       phase := if tail == 0 then Flip(s.phase) else s.phase,
       inFlight := s.inFlight[..i] + s.inFlight[i + 1..], posted := s.posted + [Answer(command, status)])
  }

  function AfterTake(s: State): State
    requires s.cqHead < |s.cq|
  {
    var head := (s.cqHead + 1) % DEPTH;
    s.(cqHead := head, cqPhase := if head == 0 then Flip(s.cqPhase) else s.cqPhase, cqDoorbell := head,
       waiting := false, consumed := s.consumed + [s.cq[s.cqHead]])
  }

  datatype Path = Path(moves: seq<Move>, trace: seq<State>)

  /** A run from `s` to `t`. */
  ghost predicate Leads(s: State, t: State, path: Path)
  {
    Reaches(s, path.moves, path.trace) && path.trace[|path.moves|] == t
  }

  function Before(s: State, move: Move, path: Path): Path
  {
    Path([move] + path.moves, [s] + path.trace)
  }

  lemma Nowhere(s: State)
    ensures Leads(s, s, Path([], [s]))
  {}

  lemma FirstStep(s: State, move: Move, t: State, u: State, path: Path)
    requires Next(s, t, move) && Leads(t, u, path)
    ensures Leads(s, u, Before(s, move, path))
  {
    hide Next;
    var moves, trace := [move] + path.moves, [s] + path.trace;
    forall i | 0 <= i < |moves| ensures Next(trace[i], trace[i + 1], moves[i]) {
      assert i > 0 ==> Next(path.trace[i - 1], path.trace[i], path.moves[i - 1]);
    }
  }

  // ----- the answer the host gets -----

  /** The controller fetches all that lies in the ring. */
  lemma {:induction false} FetchesAll(s: State, b: nat) returns (t: State, path: Path)
    requires Behind(s, b) && s.cqTail == 0 && s.inFlight == s.sq[..s.sqHead] && s.waiting
    ensures Leads(s, t, path) && Behind(t, b)
    ensures t == s.(sqHead := s.sqDoorbell, inFlight := s.sq[..s.sqDoorbell])
    decreases s.sqDoorbell - s.sqHead
  {
    hide PhaseOf, SlotPhase, Accounted, Leads;
    if s.sqHead == s.sqDoorbell {
      Nowhere(s);
      t, path := s, Path([], [s]);
    } else {
      var next := AfterFetch(s);
      assert Fetch(s, next);
      BehindFetch(s, next, b);
      assert s.sq[..s.sqHead + 1] == s.sq[..s.sqHead] + [s.sq[s.sqHead]];
      t, path := FetchesAll(next, b);
      FirstStep(s, LFetch, next, t, path);
      path := Before(s, LFetch, path);
    }
  }

  /** The host has taken the answer `status` to `command`, after sending `mine`. */
  ghost predicate Took(t: State, mine: Command, command: Command, status: nat)
  {
    && !t.waiting && t.submitted == [mine] && t.consumed == [Completion(command.cid, status, 1)]
    && t.posted != [] && t.posted[|t.posted| - 1] == Answer(command, status)
  }

  lemma LastAnswerTaken(s: State, b: nat, status: nat) returns (path: Path)
    requires Behind(s, b) && s.waiting && s.sqHead == s.sqDoorbell == s.cqHead + 1 == s.cqTail + 1 && PhaseOf(b) == 1
    requires |s.inFlight| == 1 && status < STATUSES
    ensures var t := AfterTake(AfterComplete(s, 0, status));
      Leads(s, t, path) && LPollTake in path.moves && Took(t, s.sq[s.cqHead], s.inFlight[0], status)
  {
    hide PhaseOf, SlotPhase, Accounted, Leads;
    var answered := AfterComplete(s, 0, status);
    var t := AfterTake(answered);
    assert Complete(s, answered, 0, status);
    assert PollTake(answered, t);
    Nowhere(t);
    path := Path([], [t]);
    FirstStep(answered, LPollTake, t, t, path);
    path := Before(answered, LPollTake, path);
    FirstStep(s, LComplete(0, status), answered, t, path);
    path := Before(s, LComplete(0, status), path);
  }

  /** The controller answers all it has fetched, the `q`-th last, and the host takes that answer. */
  lemma {:induction false} AnswersLast(s: State, b: nat, q: nat, status: nat) returns (t: State, path: Path)
    requires Behind(s, b) && s.waiting && s.sqHead == s.sqDoorbell == s.cqHead + 1 && PhaseOf(b) == 1
    requires q < |s.inFlight| && status < STATUSES
    ensures Leads(s, t, path) && LPollTake in path.moves
    ensures Took(t, s.sq[s.cqHead], s.inFlight[q], status)
    decreases |s.inFlight|
  {
    hide PhaseOf, SlotPhase, Accounted, Leads, Took;
    if |s.inFlight| == 1 {
      path := LastAnswerTaken(s, b, status);
      t := AfterTake(AfterComplete(s, 0, status));
    } else {
      var i := if q == 0 then 1 else 0;
      var next := AfterComplete(s, i, status);
      assert Complete(s, next, i, status);
      BehindComplete(s, next, b, i, status);
      t, path := AnswersLast(next, b, if q == 0 then 0 else q - 1, status);
      FirstStep(s, LComplete(i, status), next, t, path);
      path := Before(s, LComplete(i, status), path);
    }
  }

  lemma JoinRuns(s: State, t: State, u: State, p: Path, q: Path) returns (path: Path)
    requires Leads(s, t, p) && Leads(t, u, q)
    ensures Leads(s, u, path) && path.moves == p.moves + q.moves
  {
    hide Next;
    var moves, trace := p.moves + q.moves, p.trace[..|p.moves|] + q.trace;
    path := Path(moves, trace);
    forall i | 0 <= i < |moves| ensures Next(trace[i], trace[i + 1], moves[i]) {
      if i < |p.moves| {
        assert Next(p.trace[i], p.trace[i + 1], p.moves[i]);
      } else {
        var k := i - |p.moves|;
        assert Next(q.trace[k], q.trace[k + 1], q.moves[k]);
      }
    }
  }

  lemma BelowLap(n: nat)
    ensures n % (2 * DEPTH) < DEPTH - 1 ==> PhaseOf(n) == 1 && n % DEPTH < DEPTH - 1
  {
    TwoLaps(n);
  }

  /** From a start behind by less than 63 commands of 128, the answer to anything in the ring may be taken. */
  lemma SendsAndTakes(s: State, b: nat, command: Command, j: nat, status: nat) returns (t: State, path: Path)
    requires Behind(s, b) && !s.waiting && PhaseOf(b) == 1 && s.cqHead < DEPTH - 1
    requires command.cid == s.sqTail && j <= s.cqHead && status < STATUSES
    ensures Leads(s, t, path) && LPollTake in path.moves
    ensures Took(t, command, if j == s.cqHead then command else s.sq[j], status)
  {
    Advance(b);
    hide PhaseOf, SlotPhase, Accounted, Leads, Took;
    var sent := AfterSubmit(s, command);
    assert Submit(s, sent, command);
    BehindSubmit(s, sent, b, command);
    assert sent.inFlight == sent.sq[..sent.sqHead];
    var all, fetching := FetchesAll(sent, b);
    var answering;
    t, answering := AnswersLast(all, b, j, status);
    path := JoinRuns(sent, all, t, fetching, answering);
    FirstStep(s, LSubmit(command), sent, t, path);
    path := Before(s, LSubmit(command), path);
  }

  /**
  After any number of failed bring-ups with `n` commands sent, where `n % 128` is from 1 to 62: whatever the host
  sends first, it may take for its answer the one to any of the `n % 64` old commands in the ring before it.
  */
  lemma AnyAnswerTaken(events: seq<Event>, trace: seq<State>, k: nat, command: Command, j: nat, status: nat)
    requires Life(events, trace) && k <= |events| && !trace[k].waiting
    requires var n := Sent(events[..k]);
      0 < n % 128 < 63 && command.cid == n % 64 && j < n % 64 && status < STATUSES
    ensures |trace[k].sq| == DEPTH
    ensures exists t, path :: Leads(Restarted(trace[k]), t, path) && Took(t, command, trace[k].sq[j], status)
  {
    var n := Sent(events[..k]);
    LifeReachable(events, trace, k);
    RestartReachable(trace[k], n);
    BelowLap(n);
    hide PhaseOf, SlotPhase, Accounted, Leads, Took, Reachable, Life;
    var t, path := SendsAndTakes(Restarted(trace[k]), n, command, j, status);
  }

  // ----- waiting forever -----

  lemma {:induction false} NeverTaken(s: State, b: nat, path: Path, t: State, i: nat)
    requires Behind(s, b) && DEPTH - 1 <= b % (2 * DEPTH) && Leads(s, t, path) && i <= |path.moves|
    ensures Behind(path.trace[i], b) && LPollTake !in path.moves[..i]
  {
    hide Behind, PhaseOf, SlotPhase;
    if i > 0 {
      NeverTaken(s, b, path, t, i - 1);
      assert path.moves[..i] == path.moves[..i - 1] + [path.moves[i - 1]];
      assert Next(path.trace[i - 1], path.trace[i], path.moves[i - 1]);
      BehindNext(path.trace[i - 1], path.trace[i], b, path.moves[i - 1]);
    }
  }

  lemma BehindNext(s: State, t: State, b: nat, move: Move)
    requires Behind(s, b) && DEPTH - 1 <= b % (2 * DEPTH) && Next(s, t, move)
    ensures Behind(t, b) && move != LPollTake
  {
    hide Behind;
    match move
    case LSubmit(command) => BehindSubmit(s, t, b, command);
    case LPollStale =>
    case LPollTake => BehindTake(s, t, b);
    case LFetch => BehindFetch(s, t, b);
    case LComplete(i, status) => BehindComplete(s, t, b, i, status);
  }

  /** From the very first start a command can be answered. */
  lemma StartAnswers(s: State) returns (t: State, path: Path)
    requires Initial(s)
    ensures Leads(s, t, path) && LPollTake in path.moves
  {
    hide Leads;
    var s1 := AfterSubmit(s, Command(0, 0, 0, 0, 0, 0));
    assert Submit(s, s1, Command(0, 0, 0, 0, 0, 0));
    var s2 := AfterFetch(s1);
    assert Fetch(s1, s2);
    var s3 := AfterComplete(s2, 0, 0);
    assert Complete(s2, s3, 0, 0);
    t := AfterTake(s3);
    assert PollTake(s3, t);
    Nowhere(t);
    path := Path([], [t]);
    FirstStep(s3, LPollTake, t, t, path);
    path := Before(s3, LPollTake, path);
    FirstStep(s2, LComplete(0, 0), s3, t, path);
    path := Before(s2, LComplete(0, 0), path);
    FirstStep(s1, LFetch, s2, t, path);
    path := Before(s1, LFetch, path);
    FirstStep(s, LSubmit(Command(0, 0, 0, 0, 0, 0)), s1, t, path);
    path := Before(s, LSubmit(Command(0, 0, 0, 0, 0, 0)), path);
  }

  /**
  After any number of failed bring-ups with `n` commands sent, a command of the next one can be answered exactly if
  `n % 128` is less than 63; otherwise the host polls forever, whatever the controller does.
  */
  lemma AnsweredAfterRestartIff(events: seq<Event>, trace: seq<State>, k: nat)
    requires Life(events, trace) && k <= |events| && !trace[k].waiting
    ensures (exists t, path :: Leads(Restarted(trace[k]), t, path) && LPollTake in path.moves)
      <==> Sent(events[..k]) % 128 < 63
  {
    var n, s := Sent(events[..k]), Restarted(trace[k]);
    LifeReachable(events, trace, k);
    RestartReachable(trace[k], n);
    BelowLap(n);
    hide PhaseOf, SlotPhase, Accounted, Leads, Reachable, Life;
    if n % (2 * DEPTH) == 0 {
      var t, path := StartAnswers(s);
    } else if n % (2 * DEPTH) < DEPTH - 1 {
      var t, path := SendsAndTakes(s, n, Command(s.sqTail, 0, 0, 0, 0, 0), 0, 0);
    } else {
      forall t, path | Leads(s, t, path) ensures LPollTake !in path.moves {
        NeverTaken(s, n, path, t, |path.moves|);
        assert path.moves[..|path.moves|] == path.moves;
      }
    }
  }

  // ----- the shortest case: the very first command failed -----

  /** What the rings hold and where the host is, when only one command was sent before the restart. */
  predicate RestartedAfterOne(t: State)
  {
    && t.sqTail == t.cqHead == 1 && t.cqPhase == 1 && !t.waiting && |t.sq| == |t.cq| == DEPTH
    && (forall i :: 1 <= i < DEPTH ==> t.cq[i].phase == 0)
    && t == Restarted(t)
  }

  lemma OneThenRestart(s: State)
    requires Inv(s) && !s.waiting && |s.submitted| == 1
    ensures RestartedAfterOne(Restarted(s)) && !Agree(Restarted(s))
  {}

  /** The new command is sent, and the controller fetches the old one and the new one. */
  lemma BothFetched(s: State, command: Command) returns (t: State, path: Path)
    requires RestartedAfterOne(s) && command.cid == 1
    ensures Leads(s, t, path) && t.waiting && t.inFlight == [s.sq[0], command]
    ensures t.cqHead == 1 && t.cqPhase == t.phase == 1 && t.cqTail == t.cqDoorbell == 0 && t.cq == s.cq
    ensures t.submitted == [command] && t.posted == [] && t.consumed == []
  {
    hide Leads;
    var s1 := AfterSubmit(s, command);
    assert Submit(s, s1, command);
    var s2 := AfterFetch(s1);
    assert Fetch(s1, s2);
    t := AfterFetch(s2);
    assert Fetch(s2, t);
    Nowhere(t);
    FirstStep(s2, LFetch, t, t, Path([], [t]));
    path := Before(s2, LFetch, Path([], [t]));
    FirstStep(s1, LFetch, s2, t, path);
    path := Before(s1, LFetch, path);
    FirstStep(s, LSubmit(command), s1, t, path);
    path := Before(s, LSubmit(command), path);
  }

  /** The new command is answered first, and the host takes the answer to the old one. */
  lemma StaleTaken(s: State, command: Command, earlier: Command, status: nat, stale: nat) returns (t: State, path: Path)
    requires s.waiting && s.inFlight == [earlier, command] && |s.cq| == DEPTH && status < STATUSES && stale < STATUSES
    requires s.cqHead == 1 && s.cqPhase == s.phase == 1 && s.cqTail == s.cqDoorbell == 0
    requires s.posted == [] && s.consumed == []
    ensures Leads(s, t, path) && !t.waiting && t.submitted == s.submitted
    ensures t.posted == [Answer(command, status), Answer(earlier, stale)]
    ensures t.consumed == [Completion(earlier.cid, stale, 1)]
  {
    hide Leads;
    var s1 := AfterComplete(s, 1, status);
    assert Complete(s, s1, 1, status);
    assert s1.inFlight == [earlier];
    var s2 := AfterComplete(s1, 0, stale);
    assert Complete(s1, s2, 0, stale);
    t := AfterTake(s2);
    assert PollTake(s2, t);
    Nowhere(t);
    FirstStep(s2, LPollTake, t, t, Path([], [t]));
    path := Before(s2, LPollTake, Path([], [t]));
    FirstStep(s1, LComplete(0, stale), s2, t, path);
    path := Before(s1, LComplete(0, stale), path);
    FirstStep(s, LComplete(1, status), s1, t, path);
    path := Before(s, LComplete(1, status), path);
  }

  /**
  A bring-up that failed at its first command and is tried again: the controller executes the old command once
  more, and if it answers the new one first, the host takes the answer to the old one for its own.
  */
  lemma RestartTakesStale(s: State, command: Command, status: nat, stale: nat)
    requires RestartedAfterOne(s) && command.cid == 1 && status < STATUSES && stale < STATUSES
    ensures exists path, last ::
      && Leads(s, last, path)
      && last.submitted == [command] && last.posted == [Answer(command, status), Answer(s.sq[0], stale)]
      && !last.waiting && last.consumed == [Completion(s.sq[0].cid, stale, 1)]
  {
    hide Leads;
    var t, fetching := BothFetched(s, command);
    var last, taking := StaleTaken(t, command, s.sq[0], status, stale);
    var path := JoinRuns(s, t, last, fetching, taking);
  }
}
