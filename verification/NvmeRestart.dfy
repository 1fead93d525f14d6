/**
Bringing the controller up again. A failed bring-up is tried again by entering `init` once more: the controller
is reset with its doorbells, the host's indices, its phase and the rings stay. This module follows a queue pair
through any number of bring-ups.
*/
module NvmeRestart {
  import opened NvmeProtocol

  /** The queue pair when `init` is entered again. The history starts anew. */
  function Restarted(s: State): State
  {
    s.(sqDoorbell := 0, cqDoorbell := 0, sqHead := 0, cqTail := 0, phase := 1, inFlight := [],
       submitted := [], posted := [], consumed := [])
  }

  datatype Event = Step(move: Move) | Restart

  ghost predicate LifeNext(s: State, t: State, event: Event)
  {
    match event
    case Step(move) => Next(s, t, move)
    case Restart => !s.waiting && t == Restarted(s)
  }

  /** From the first start through any steps of either side and any number of bring-ups. */
  ghost predicate Life(events: seq<Event>, trace: seq<State>)
  {
    && |trace| == |events| + 1 && Initial(trace[0])
    && forall i :: 0 <= i < |events| ==> LifeNext(trace[i], trace[i + 1], events[i])
  }

  function SentBy(event: Event): nat { if event.Step? && event.move.LSubmit? then 1 else 0 }

  /** The number of commands the host has sent, over all bring-ups. */
  function Sent(events: seq<Event>): nat
  {
    if events == [] then 0 else Sent(events[..|events| - 1]) + SentBy(events[|events| - 1])
  }

  // ----- the two states a queue pair can be in -----

  /** The number of commands answered, of `n` sent, as far as the host knows. */
  function Taken(s: State, n: nat): int { if s.waiting then n - 1 else n }

  /** Host and controller are at the same command; the three stages of a command are as in `Inv`. */
  ghost predicate Synced(s: State, n: nat)
  {
    && (s.waiting ==> n > 0 && s.submitted != [])
    && var c := Taken(s, n);
       var f := if s.sqHead == s.sqDoorbell then n else n - 1;
       var p := if s.waiting && s.cqTail == s.cqHead then n - 1 else n;
       && c <= p <= f
       && |s.sq| == |s.cq| == DEPTH
       && s.sqTail == s.sqDoorbell == n % DEPTH && s.cqHead == s.cqDoorbell == c % DEPTH
       && s.sqHead == f % DEPTH && s.cqTail == p % DEPTH
       && s.cqPhase == PhaseOf(c) && s.phase == PhaseOf(p)
       && (forall i :: 0 <= i < DEPTH ==> s.cq[i].phase == SlotPhase(i, p))
       && (s.consumed == [] ==> c % (2 * DEPTH) == 0)
       && (f < n ==> s.sq[s.sqHead] == s.submitted[|s.submitted| - 1])
       && s.inFlight == (if p < f then [s.submitted[|s.submitted| - 1]] else [])
       && (c < p ==> LastAnswered(s))
  }

  /** The entry at the host's head is the answer to the last command submitted. */
  predicate LastAnswered(s: State)
  {
    && s.submitted != [] && s.posted != [] && s.cqHead < |s.cq|
    && var last := s.posted[|s.posted| - 1];
       Answers(s.cq[s.cqHead], last) && last.command == s.submitted[|s.submitted| - 1]
  }

  predicate Answers(entry: Completion, answer: Answer)
  {
    entry.cid == answer.command.cid && entry.status == answer.status
  }

  function Commands(answers: seq<Answer>): (c: seq<Command>)
    ensures |c| == |answers|
  {
    seq(|answers|, i requires 0 <= i < |answers| => answers[i].command)
  }

  /** What the controller has answered or has in flight is what lies in the ring before its head. */
  ghost predicate Accounted(s: State)
  {
    s.sqHead <= |s.sq| && multiset(Commands(s.posted)) + multiset(s.inFlight) == multiset(s.sq[..s.sqHead])
  }

  /**
  After a bring-up that started with the host `b` commands ahead of the reset controller, and before the host
  has taken an answer: the controller works through the ring from its first slot on.
  */
  ghost predicate Behind(s: State, b: nat)
  {
    && b % (2 * DEPTH) != 0
    && |s.sq| == |s.cq| == DEPTH
    && s.cqHead == b % DEPTH && s.cqPhase == PhaseOf(b) && s.cqDoorbell == 0 && s.phase == 1
    && s.sqTail == (if s.waiting then b + 1 else b) % DEPTH
    && s.sqDoorbell == (if s.waiting then s.sqTail else 0)
    && s.cqTail <= s.sqHead <= s.sqDoorbell && |s.inFlight| == s.sqHead - s.cqTail
    && s.submitted == (if s.waiting then [s.sq[s.cqHead]] else [])
    && s.consumed == [] && |s.posted| == s.cqTail
    && (forall i :: 0 <= i < DEPTH ==> s.cq[i].phase == if i < s.cqTail then 1 else SlotPhase(i, b))
    && Accounted(s)
    && (s.cqTail > 0 ==> Answers(s.cq[s.cqTail - 1], s.posted[s.cqTail - 1]))
  }

  ghost predicate Reachable(s: State, n: nat)
  {
    Synced(s, n) || (Taken(s, n) >= 0 && Behind(s, Taken(s, n)))
  }

  // ----- every event keeps that -----

  /** The slot of the `k`-th completion has the other tag until that completion is posted. */
  lemma HeadTag(k: nat)
    ensures SlotPhase(k % DEPTH, k) == 1 - PhaseOf(k) && PhaseOf(k) <= 1
  {}

  lemma StartSynced(s: State)
    requires Initial(s)
    ensures Synced(s, 0)
  {}

  lemma TwoLaps(n: nat)
    ensures n % (2 * DEPTH) == 0 <==> n % DEPTH == 0 && PhaseOf(n) == 1
    ensures PhaseOf(n) == 1 <==> n % (2 * DEPTH) < DEPTH
    ensures n % (2 * DEPTH) % DEPTH == n % DEPTH
  {
    assert n % (2 * DEPTH) == n % DEPTH + DEPTH * (n / DEPTH % 2);
  }

  lemma SyncedSubmit(s: State, t: State, n: nat, command: Command)
    requires Synced(s, n) && Submit(s, t, command)
    ensures Synced(t, n + 1)
  {
    hide PhaseOf, SlotPhase;
    Advance(n);
  }

  lemma SyncedFetch(s: State, t: State, n: nat)
    requires Synced(s, n) && Fetch(s, t)
    ensures Synced(t, n)
  {
    hide PhaseOf, SlotPhase;
    Advance(n - 1);
  }

  /** What holds where the controller can answer. */
  lemma SyncedInFlight(s: State, n: nat, i: nat)
    requires Synced(s, n) && i < |s.inFlight|
    ensures s.waiting && s.submitted != [] && i == 0 && s.inFlight == [s.submitted[|s.submitted| - 1]]
    ensures s.inFlight[..i] + s.inFlight[i + 1..] == []
    ensures n > 0 && s.cqTail == s.cqHead == (n - 1) % DEPTH && s.sqHead == s.sqDoorbell && s.phase == PhaseOf(n - 1)
  {
    hide PhaseOf, SlotPhase;
  }

  lemma SyncedTags(cq: seq<Completion>, entry: Completion, k: nat)
    requires |cq| == DEPTH && (forall i :: 0 <= i < DEPTH ==> cq[i].phase == SlotPhase(i, k))
    requires entry.phase == PhaseOf(k)
    ensures var after := cq[k % DEPTH := entry];
      forall i :: 0 <= i < DEPTH ==> after[i].phase == SlotPhase(i, k + 1)
  {
    hide PhaseOf, SlotPhase;
    var after := cq[k % DEPTH := entry];
    forall i | 0 <= i < DEPTH ensures after[i].phase == SlotPhase(i, k + 1) {
      SlotAdvance(i, k);
    }
  }

  lemma SyncedComplete(s: State, t: State, n: nat, i: nat, status: nat)
    requires Synced(s, n) && Complete(s, t, i, status)
    ensures Synced(t, n)
  {
    hide PhaseOf, SlotPhase;
    SyncedInFlight(s, n, i);
    Advance(n - 1);
    SyncedTags(s.cq, Completion(s.inFlight[i].cid, status, s.phase), n - 1);
  }

  lemma SyncedTake(s: State, t: State, n: nat)
    requires Synced(s, n) && PollTake(s, t)
    ensures Synced(t, n) && LastAnswered(s) && Agree(t)
  {
    hide PhaseOf, SlotPhase;
    Advance(n - 1);
    HeadTag(n - 1);
  }

  lemma AccountedSubmit(s: State, t: State, command: Command)
    requires Accounted(s) && s.sqHead == 0 && Submit(s, t, command)
    ensures Accounted(t)
  {
    assert t.sq[..0] == s.sq[..0];
  }

  lemma BehindSubmit(s: State, t: State, b: nat, command: Command)
    requires Behind(s, b) && Submit(s, t, command)
    ensures Behind(t, b)
  {
    hide PhaseOf, SlotPhase, Accounted;
    Advance(b);
    AccountedSubmit(s, t, command);
  }

  lemma AccountedFetch(s: State, t: State)
    requires Accounted(s) && Fetch(s, t) && t.sqHead == s.sqHead + 1
    ensures Accounted(t)
  {
    hide Commands;
    assert s.sq[..s.sqHead + 1] == s.sq[..s.sqHead] + [s.sq[s.sqHead]];
  }

  lemma BehindFetch(s: State, t: State, b: nat)
    requires Behind(s, b) && Fetch(s, t)
    ensures Behind(t, b)
  {
    hide PhaseOf, SlotPhase, Accounted;
    AccountedFetch(s, t);
  }

  lemma WithoutOne(inFlight: seq<Command>, i: nat)
    requires i < |inFlight|
    ensures multiset(inFlight[..i] + inFlight[i + 1..]) + multiset{inFlight[i]} == multiset(inFlight)
  {
    assert inFlight == inFlight[..i] + [inFlight[i]] + inFlight[i + 1..];
  }

  lemma CommandsAppend(answers: seq<Answer>, answer: Answer)
    ensures Commands(answers + [answer]) == Commands(answers) + [answer.command]
  {}

  lemma AccountedComplete(s: State, t: State, i: nat, status: nat)
    requires Accounted(s) && Complete(s, t, i, status)
    ensures Accounted(t)
  {
    hide Commands;
    WithoutOne(s.inFlight, i);
    CommandsAppend(s.posted, Answer(s.inFlight[i], status));
  }

  /** The reset controller never comes to the end of the ring, as the host's doorbell for it is at its start. */
  lemma BehindInFlight(s: State, t: State, b: nat, i: nat, status: nat)
    requires Behind(s, b) && Complete(s, t, i, status)
    ensures s.waiting && t.cqTail == s.cqTail + 1 <= t.sqHead && t.phase == 1
    ensures |t.inFlight| == t.sqHead - t.cqTail && |t.posted| == t.cqTail
    ensures t.cq[s.cqTail].phase == 1 && Answers(t.cq[s.cqTail], t.posted[s.cqTail])
  {
    hide PhaseOf, SlotPhase, Accounted;
  }

  lemma BehindComplete(s: State, t: State, b: nat, i: nat, status: nat)
    requires Behind(s, b) && Complete(s, t, i, status)
    ensures Behind(t, b)
  {
    hide PhaseOf, SlotPhase, Accounted;
    AccountedComplete(s, t, i, status);
    BehindInFlight(s, t, b, i, status);
    hide Answers;
  }

  /** What the tags say when the host accepts the entry at its head. */
  lemma BehindHead(s: State, b: nat)
    requires Behind(s, b) && s.waiting && s.cq[s.cqHead].phase == s.cqPhase
    ensures s.cqTail == s.cqHead + 1 == s.sqHead == s.sqDoorbell && s.inFlight == [] && PhaseOf(b) == 1
    ensures s.cqHead < DEPTH - 1
  {
    hide PhaseOf, SlotPhase, Accounted;
    HeadTag(b);
  }

  lemma BehindTags(s: State, b: nat)
    requires Behind(s, b) && s.cqTail == s.cqHead + 1 && PhaseOf(b) == 1
    ensures forall i :: 0 <= i < DEPTH ==> s.cq[i].phase == SlotPhase(i, b + 1)
  {
    forall i | 0 <= i < DEPTH ensures s.cq[i].phase == SlotPhase(i, b + 1) {
      SlotAdvance(i, b);
    }
  }

  lemma AccountedAll(s: State)
    requires Accounted(s) && s.inFlight == []
    ensures multiset(Commands(s.posted)) == multiset(s.sq[..s.sqHead])
  {}

  /** The host can take an entry only when the controller has worked through the whole ring up to the new command. */
  lemma BehindTake(s: State, t: State, b: nat)
    requires Behind(s, b) && PollTake(s, t)
    ensures Synced(t, b + 1) && Agree(t) && CaughtUp(t, b)
    ensures b % (2 * DEPTH) < DEPTH - 1
  {
    BehindHead(s, b);
    BehindTags(s, b);
    AccountedAll(s);
    TwoLaps(b);
    Advance(b);
    hide PhaseOf, SlotPhase, Accounted, Commands;
  }

  /** The controller has executed the new command and once more all those in the ring before it, in some order. */
  ghost predicate CaughtUp(t: State, b: nat)
  {
    && |t.sq| == DEPTH && t.submitted == [t.sq[b % DEPTH]] && |t.consumed| == 1 && |t.posted| == b % DEPTH + 1
    && multiset(Commands(t.posted)) == multiset(t.sq[..b % DEPTH + 1])
    && Answers(t.consumed[0], t.posted[b % DEPTH])
  }

  /** Entering `init` again from anywhere between two calls. */
  lemma RestartReachable(s: State, n: nat)
    requires Reachable(s, n) && !s.waiting
    ensures if n % (2 * DEPTH) == 0 then Initial(Restarted(s)) && Synced(Restarted(s), n) else Behind(Restarted(s), n)
    ensures Agree(Restarted(s)) <==> n % (2 * DEPTH) == 0
  {
    TwoLaps(n);
    forall i | 0 <= i < DEPTH && n % (2 * DEPTH) == 0 ensures SlotPhase(i, n) == 0 {}
    assert s.sq[..0] == [];
    hide PhaseOf, SlotPhase;
  }

  lemma NextKeepsReachable(s: State, t: State, n: nat, move: Move)
    requires Reachable(s, n) && Next(s, t, move)
    ensures Reachable(t, n + SentBy(Step(move)))
  {
    hide Synced, Behind;
    var b := Taken(s, n);
    match move
    case LSubmit(command) =>
      if Synced(s, n) { SyncedSubmit(s, t, n, command); } else { BehindSubmit(s, t, b, command); }
    case LPollStale =>
    case LPollTake => if Synced(s, n) { SyncedTake(s, t, n); } else { BehindTake(s, t, b); }
    case LFetch => if Synced(s, n) { SyncedFetch(s, t, n); } else { BehindFetch(s, t, b); }
    case LComplete(i, status) =>
      if Synced(s, n) { SyncedComplete(s, t, n, i, status); } else { BehindComplete(s, t, b, i, status); }
  }

  /** However often the controller was brought up, the queue pair is in one of the two states. */
  lemma {:induction false} LifeReachable(events: seq<Event>, trace: seq<State>, k: nat)
    requires Life(events, trace) && k <= |events|
    ensures Reachable(trace[k], Sent(events[..k]))
  {
    hide Reachable, Initial, Next, Restarted;
    if k == 0 {
      StartSynced(trace[0]);
      SyncedReachable(trace[0], 0);
    } else {
      LifeReachable(events, trace, k - 1);
      assert events[..k][..k - 1] == events[..k - 1];
      assert LifeNext(trace[k - 1], trace[k], events[k - 1]);
      match events[k - 1]
      case Step(move) => NextKeepsReachable(trace[k - 1], trace[k], Sent(events[..k - 1]), move);
      case Restart => RestartKeepsReachable(trace[k - 1], Sent(events[..k - 1]));
    }
  }

  lemma SyncedReachable(s: State, n: nat)
    requires Synced(s, n)
    ensures Reachable(s, n)
  {}

  lemma RestartKeepsReachable(s: State, n: nat)
    requires Reachable(s, n) && !s.waiting
    ensures Reachable(Restarted(s), n)
  {
    RestartReachable(s, n);
    hide Synced, Behind;
  }

  /**
  However often bringing the controller up has failed before, entering `init` again leaves host and controller in
  agreement, and where they were at the very first start, exactly if the host has sent a multiple of 128 commands.
  */
  lemma RestartAgreesIff(events: seq<Event>, trace: seq<State>, k: nat)
    requires Life(events, trace) && k <= |events| && !trace[k].waiting
    ensures Agree(Restarted(trace[k])) <==> Sent(events[..k]) % 128 == 0
    ensures Initial(Restarted(trace[k])) <==> Sent(events[..k]) % 128 == 0
  {
    LifeReachable(events, trace, k);
    RestartReachable(trace[k], Sent(events[..k]));
    hide Reachable, Behind, Synced;
  }

  /**
  Whenever the host takes an entry, both sides agree afterwards. The entry answers the command just submitted,
  unless it is the first since a start from a disagreement of `c` commands: then the controller has executed
  everything in the ring up to the new command, and the entry is its last answer, to whichever of them that is.
  */
  lemma TakenSinceRestart(events: seq<Event>, trace: seq<State>, k: nat)
    requires Life(events, trace) && k < |events| && events[k] == Step(LPollTake)
    ensures var before, after, c := trace[k], trace[k + 1], Sent(events[..k]) - 1;
      && c >= 0 && Agree(after) && TookHead(before, after)
      && if before.consumed == [] && c % 128 != 0 then CaughtUp(after, c) else LastAnswered(before)
  {
    var before, after, n := trace[k], trace[k + 1], Sent(events[..k]);
    LifeReachable(events, trace, k);
    TakeEvent(events, trace, k);
    hide *;
    TakenHere(before, after, n);
  }

  lemma TakeEvent(events: seq<Event>, trace: seq<State>, k: nat)
    requires Life(events, trace) && k < |events| && events[k] == Step(LPollTake)
    ensures PollTake(trace[k], trace[k + 1])
  {
    assert LifeNext(trace[k], trace[k + 1], events[k]);
  }

  /** The entry at the host's head has been taken. */
  predicate TookHead(s: State, t: State)
  {
    s.cqHead < |s.cq| && t.consumed == s.consumed + [s.cq[s.cqHead]] && t.posted == s.posted && !t.waiting
  }

  lemma TakenHere(s: State, t: State, n: nat)
    requires Reachable(s, n) && PollTake(s, t)
    ensures Agree(t) && n > 0 && TookHead(s, t)
    ensures if s.consumed == [] && (n - 1) % (2 * DEPTH) != 0 then CaughtUp(t, n - 1) else LastAnswered(s)
  {
    if Synced(s, n) {
      SyncedTake(s, t, n);
    } else {
      BehindTake(s, t, n - 1);
    }
    hide PhaseOf, SlotPhase, Agree, CaughtUp, LastAnswered, Accounted;
  }
}
