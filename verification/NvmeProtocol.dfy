/**
One NVMe submission/completion queue pair as a protocol: host and controller take their steps in any
order, and the host recognises a completion by its phase tag alone
(NVM Express Base Specification 1.4, sections 4.1 and 4.6).
*/
module NvmeProtocol {
  import opened Bytes

  const DEPTH := 64
  const STATUSES := 0x8000

  /** A submission entry: its command identifier and everything else it asks for. */
  datatype Command = Command(cid: nat, opcode: nat, nsid: nat, cdw10: nat, cdw11: nat, cdw12: nat)

  /** A completion entry; the status word is `2 * status + phase`. */
  datatype Completion = Completion(cid: nat, status: nat, phase: nat)

  /** What the controller really did: which command a completion answers. */
  datatype Answer = Answer(command: Command, status: nat)

  datatype State = State(
    // host
    sqTail: nat, cqHead: nat, cqPhase: nat, waiting: bool,
    // shared memory and doorbells
    sq: seq<Command>, cq: seq<Completion>, sqDoorbell: nat, cqDoorbell: nat,
    // controller
    sqHead: nat, cqTail: nat, phase: nat, inFlight: seq<Command>,
    // history
    submitted: seq<Command>, posted: seq<Answer>, consumed: seq<Completion>)

  function Flip(phase: nat): nat { if phase == 0 then 1 else 0 }

  // ----- the steps -----

  /** The host writes a command at its tail and rings the doorbell. It waits before it submits again. */
  ghost predicate Submit(s: State, t: State, command: Command)
  {
    && !s.waiting && s.sqTail < |s.sq| && command.cid == s.sqTail
    && var tail := (s.sqTail + 1) % DEPTH;
       t == s.(sq := s.sq[s.sqTail := command], sqTail := tail, sqDoorbell := tail, waiting := true,
               submitted := s.submitted + [command])
  }

  /** The host looks at the entry at its head and sees the other phase. */
  ghost predicate PollStale(s: State, t: State)
  {
    s.waiting && s.cqHead < |s.cq| && s.cq[s.cqHead].phase != s.cqPhase && t == s
  }

  /** The host takes the entry at its head: the phase tag matches. */
  ghost predicate PollTake(s: State, t: State)
  {
    && s.waiting && s.cqHead < |s.cq| && s.cq[s.cqHead].phase == s.cqPhase
    && var head := (s.cqHead + 1) % DEPTH;
       t == s.(cqHead := head, cqPhase := if head == 0 then Flip(s.cqPhase) else s.cqPhase,
               cqDoorbell := head, waiting := false, consumed := s.consumed + [s.cq[s.cqHead]])
  }

  /** The controller fetches the command at its head. */
  ghost predicate Fetch(s: State, t: State)
  {
    && s.sqHead != s.sqDoorbell && s.sqHead < |s.sq|
    && t == s.(sqHead := (s.sqHead + 1) % DEPTH, inFlight := s.inFlight + [s.sq[s.sqHead]])
  }

  /** The controller answers any command in flight, if the completion queue is not full. */
  ghost predicate Complete(s: State, t: State, i: nat, status: nat)
  {
    && i < |s.inFlight| && status < STATUSES && s.cqTail < |s.cq| && (s.cqTail + 1) % DEPTH != s.cqDoorbell
    && var command := s.inFlight[i];
       var tail := (s.cqTail + 1) % DEPTH;
       t == s.(cq := s.cq[s.cqTail := Completion(command.cid, status, s.phase)], cqTail := tail,
               phase := if tail == 0 then Flip(s.phase) else s.phase,
               inFlight := s.inFlight[..i] + s.inFlight[i + 1..],
               posted := s.posted + [Answer(command, status)])
  }

  datatype Move = LSubmit(command: Command) | LPollStale | LPollTake | LFetch | LComplete(i: nat, status: nat)

  ghost predicate Next(s: State, t: State, move: Move)
  {
    match move
    case LSubmit(command) => Submit(s, t, command)
    case LPollStale => PollStale(s, t)
    case LPollTake => PollTake(s, t)
    case LFetch => Fetch(s, t)
    case LComplete(i, status) => Complete(s, t, i, status)
  }

  ghost predicate Initial(s: State)
  {
    && s.sqTail == s.cqHead == s.sqDoorbell == s.cqDoorbell == s.sqHead == s.cqTail == 0
    && s.cqPhase == s.phase == 1 && !s.waiting
    && |s.sq| == |s.cq| == DEPTH && (forall i :: 0 <= i < DEPTH ==> s.cq[i].phase == 0)
    && s.inFlight == s.submitted == [] && s.posted == [] && s.consumed == []
  }

  // ----- the invariant -----

  /** The phase tag of the `k`-th completion. */
  function PhaseOf(k: nat): nat { 1 - k / DEPTH % 2 }

  /** The tag in slot `i` once `k` completions have been posted: this lap's behind the tail, else the last one's. */
  function SlotPhase(i: nat, k: nat): nat { if i < k % DEPTH then PhaseOf(k) else 1 - PhaseOf(k) }

  ghost predicate Inv(s: State)
  {
    var n, f, p, c := |s.submitted|, |s.posted| + |s.inFlight|, |s.posted|, |s.consumed|;
    && c <= p <= f <= n <= c + 1 && (s.waiting <==> n == c + 1)
    && |s.sq| == |s.cq| == DEPTH
    && s.sqTail == s.sqDoorbell == n % DEPTH && s.cqHead == s.cqDoorbell == c % DEPTH
    && s.sqHead == f % DEPTH && s.cqTail == p % DEPTH
    && s.cqPhase == PhaseOf(c) && s.phase == PhaseOf(p)
    && (forall i :: 0 <= i < DEPTH ==> s.cq[i].phase == SlotPhase(i, p))
    && (f < n ==> s.sq[s.sqHead] == s.submitted[f])
    && (p < f ==> s.inFlight == [s.submitted[p]])
    && (c < p ==> s.cq[s.cqHead].cid == s.posted[c].command.cid && s.cq[s.cqHead].status == s.posted[c].status)
    && (forall k :: 0 <= k < p ==> s.posted[k].command == s.submitted[k] && s.posted[k].status < STATUSES)
    && (forall k :: 0 <= k < c ==>
          s.consumed[k].cid == s.submitted[k].cid && s.consumed[k].status == s.posted[k].status)
  }

  lemma Advance(k: nat)
    ensures (k + 1) % DEPTH == (k % DEPTH + 1) % DEPTH
    ensures PhaseOf(k + 1) == if (k + 1) % DEPTH == 0 then 1 - PhaseOf(k) else PhaseOf(k)
  {}

  /** Posting the `k`-th completion leaves every slot with the tag the next count asks for. */
  lemma SlotAdvance(i: nat, k: nat)
    requires i < DEPTH
    ensures SlotPhase(i, k + 1) == if i == k % DEPTH then PhaseOf(k) else SlotPhase(i, k)
  {}

  /** What the invariant says where the controller's next step is to answer. */
  lemma InFlightHere(s: State)
    requires Inv(s) && s.waiting && |s.posted| == |s.consumed| && s.sqHead == s.sqDoorbell
    ensures s.inFlight == [s.submitted[|s.posted|]] && |s.submitted| == |s.posted| + 1
    ensures (s.cqTail + 1) % DEPTH != s.cqDoorbell
  {}

  lemma TagIsBit(s: State)
    requires Inv(s)
    ensures s.cqPhase <= 1
  {}

  lemma InitialInv(s: State)
    requires Initial(s)
    ensures Inv(s)
  {}

  lemma SubmitKeeps(s: State, t: State, command: Command)
    requires Inv(s) && Submit(s, t, command)
    ensures Inv(t)
  {
    hide PhaseOf, SlotPhase;
    Advance(|s.submitted|);
  }

  lemma TakeKeeps(s: State, t: State)
    requires Inv(s) && PollTake(s, t)
    ensures Inv(t)
  {
    hide PhaseOf, SlotPhase;
    Advance(|s.consumed|);
    TakesFresh(s);
  }

  lemma FetchKeeps(s: State, t: State)
    requires Inv(s) && Fetch(s, t)
    ensures Inv(t)
  {
    hide PhaseOf, SlotPhase;
    Advance(|s.posted| + |s.inFlight|);
  }

  lemma CompleteKeeps(s: State, t: State, i: nat, status: nat)
    requires Inv(s) && Complete(s, t, i, status)
    ensures Inv(t)
  {
    hide PhaseOf, SlotPhase;
    var p := |s.posted|;
    Advance(p);
    forall j | 0 <= j < DEPTH ensures t.cq[j].phase == SlotPhase(j, p + 1) {
      SlotAdvance(j, p);
    }
  }

  /** Every step keeps the invariant. */
  lemma NextKeepsInv(s: State, t: State, move: Move)
    requires Inv(s) && Next(s, t, move)
    ensures Inv(t)
  {
    match move
    case LSubmit(command) => SubmitKeeps(s, t, command);
    case LPollStale =>
    case LPollTake => TakeKeeps(s, t);
    case LFetch => FetchKeeps(s, t);
    case LComplete(i, status) => CompleteKeeps(s, t, i, status);
  }

  /** The host accepts the entry at its head exactly if the answer to its command has been posted. */
  lemma TakesFresh(s: State)
    requires Inv(s) && s.waiting
    ensures s.cq[s.cqHead].phase == s.cqPhase <==> |s.posted| == |s.consumed| + 1
  {
    SlotAdvance(s.cqHead, |s.consumed|);
  }

  /** What a waiting host knows when it polls. */
  lemma HostView(s: State)
    requires Inv(s) && s.waiting
    ensures s.cqHead < DEPTH == |s.cq| && |s.consumed| <= |s.posted| <= |s.submitted|
    ensures |s.posted| + |s.inFlight| <= |s.submitted|
    ensures s.cq[s.cqHead].phase != s.cqPhase ==> |s.posted| == |s.consumed|
  {
    TakesFresh(s);
  }

  // ----- runs -----

  ghost predicate Reaches(s: State, moves: seq<Move>, trace: seq<State>)
  {
    && |trace| == |moves| + 1 && trace[0] == s
    && forall i :: 0 <= i < |moves| ==> Next(trace[i], trace[i + 1], moves[i])
  }

  lemma {:induction false} RunKeepsInv(s: State, moves: seq<Move>, trace: seq<State>, k: nat)
    requires Initial(s) && Reaches(s, moves, trace) && k < |trace|
    ensures Inv(trace[k])
  {
    hide Inv, Next;
    if k == 0 {
      InitialInv(s);
    } else {
      RunKeepsInv(s, moves, trace, k - 1);
      NextKeepsInv(trace[k - 1], trace[k], moves[k - 1]);
    }
  }

  /**
  In every interleaving, whenever the host takes an entry, it is the answer to the command it submitted
  last, with the status the controller gave that command; nothing is in flight any more, and host and
  controller agree on both queue positions and on the phase.
  */
  lemma TakenIsMine(s: State, moves: seq<Move>, trace: seq<State>, k: nat)
    requires Initial(s) && Reaches(s, moves, trace) && k < |moves| && moves[k] == LPollTake
    ensures var before, after := trace[k], trace[k + 1];
      var last := |after.submitted| - 1;
      && Agree(after)
      && |after.consumed| == |after.posted| == |after.submitted| > 0
      && after.posted[last].command == after.submitted[last]
      && after.consumed[last] == before.cq[before.cqHead]
      && after.consumed[last].cid == after.submitted[last].cid
      && after.consumed[last].status == after.posted[last].status
  {
    RunKeepsInv(s, moves, trace, k);
    RunKeepsInv(s, moves, trace, k + 1);
    assert Next(trace[k], trace[k + 1], moves[k]);
    TakesFresh(trace[k]);
  }

  ghost predicate Agree(s: State)
  {
    s.inFlight == [] && s.sqTail == s.sqHead && s.cqHead == s.cqTail && s.cqPhase == s.phase
  }

  /** Between calls the two sides agree, however earlier commands ended. */
  lemma IdleAgrees(s: State, moves: seq<Move>, trace: seq<State>, k: nat)
    requires Initial(s) && Reaches(s, moves, trace) && k < |trace| && !trace[k].waiting
    ensures Agree(trace[k])
  {
    RunKeepsInv(s, moves, trace, k);
  }

  /** While the host waits the controller always has a step to take until the answer is there: no deadlock. */
  lemma NeverStuck(s: State)
    requires Inv(s) && s.waiting
    ensures (exists t :: PollTake(s, t)) || (exists t :: Fetch(s, t)) || (exists t :: Complete(s, t, 0, 0))
  {
    hide PhaseOf, SlotPhase;
    TakesFresh(s);
    var n, f, p, c := |s.submitted|, |s.posted| + |s.inFlight|, |s.posted|, |s.consumed|;
    Advance(c);
    if p == c + 1 {
      var head := (s.cqHead + 1) % DEPTH;
      var t := s.(cqHead := head, cqPhase := if head == 0 then Flip(s.cqPhase) else s.cqPhase,
                  cqDoorbell := head, waiting := false, consumed := s.consumed + [s.cq[s.cqHead]]);
      assert PollTake(s, t);
    } else if f == c {
      var t := s.(sqHead := (s.sqHead + 1) % DEPTH, inFlight := s.inFlight + [s.sq[s.sqHead]]);
      assert Fetch(s, t);
    } else {
      var command, tail := s.inFlight[0], (s.cqTail + 1) % DEPTH;
      var t := s.(cq := s.cq[s.cqTail := Completion(command.cid, 0, s.phase)], cqTail := tail,
                  phase := if tail == 0 then Flip(s.phase) else s.phase,
                  inFlight := s.inFlight[..0] + s.inFlight[1..], posted := s.posted + [Answer(command, 0)]);
      assert Complete(s, t, 0, 0);
    }
  }
}
