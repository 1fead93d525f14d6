/** The driver's polling calls, with a controller that takes its steps between two polls. */
module NvmeController {
  import opened Bytes
  import opened NvmeProtocol

  /** `check_status`: the status field above the phase bit is zero. */
  predicate CheckStatus(word: nat) { word / 2 % STATUSES == 0 }

  /** The word the host reads from a completion entry. */
  function StatusWord(status: nat, phase: nat): nat { 2 * status + phase }

  /** `namespace_attach` also accepts "already attached": status code type 1, status code 0x18. */
  predicate AttachAccepts(word: nat)
  {
    CheckStatus(word) || (word / 0x200 % 8 == 1 && word / 2 % 0x100 == 0x18)
  }

  /** Both verdicts are about the status the controller reported, whatever the phase tag. */
  lemma VerdictIgnoresPhase(status: nat, phase: nat)
    requires status < STATUSES && phase <= 1
    ensures CheckStatus(StatusWord(status, phase)) <==> status == 0
    ensures AttachAccepts(StatusWord(status, phase)) <==>
      status == 0 || (status / 0x100 % 8 == 1 && status % 0x100 == 0x18)
  {
    assert StatusWord(status, phase) / 2 == status;
    assert StatusWord(status, phase) / 0x200 == status / 0x100;
  }

  /** The command words of `read` (opcode 2) and `write` (opcode 1). */
  function IoCommand(opcode: nat, cid: nat, lba: nat, count: nat): Command
  {
    Command(cid, opcode, 1, lba % 0x1_0000_0000, lba / 0x1_0000_0000 % 0x1_0000_0000,
            (count + 0xFFFF_FFFF) % 0x1_0000)
  }

  /** The controller reconstructs the address; the zero-based 16-bit count is exact for 1 to 65536 blocks only. */
  lemma IoCommandMeansIff(opcode: nat, cid: nat, lba: nat, count: nat)
    requires lba < U64 && count < 0x1_0000_0000
    ensures var c := IoCommand(opcode, cid, lba, count);
      && c.cdw10 + 0x1_0000_0000 * c.cdw11 == lba
      && (c.cdw12 + 1 == count <==> 1 <= count <= 0x1_0000)
  {}

  /** Every word of the command, for any count. */
  lemma IoCommandFields(opcode: nat, cid: nat, lba: nat, count: nat)
    requires lba < U64 && count < 0x1_0000_0000
    ensures var c := IoCommand(opcode, cid, lba, count);
      && c.cid == cid && c.opcode == opcode && c.nsid == 1
      && c.cdw10 < 0x1_0000_0000 && c.cdw10 + 0x1_0000_0000 * c.cdw11 == lba
      && c.cdw12 == if count == 0 then 0xFFFF else (count - 1) % 0x1_0000
  {
    IoCommandMeansIff(opcode, cid, lba, count);
    assert count > 0 ==> (count - 1 + 0x1_0000_0000) % 0x1_0000 == (count - 1) % 0x1_0000;
  }

  /** A transfer of no blocks is sent as one of 65536. */
  lemma NoBlocksMeansAll(opcode: nat, cid: nat, lba: nat)
    ensures IoCommand(opcode, cid, lba, 0).cdw12 + 1 == 0x1_0000
  {}

  class QueuePair {
    const sq: array<Command>
    const cq: array<Completion>
    // the host's side
    var sqTail: nat
    var cqHead: nat
    var cqPhase: nat
    var sqDoorbell: nat
    var cqDoorbell: nat
    // the controller's side; it does not stay idle longer than its patience while there is work
    var sqHead: nat
    var cqTail: nat
    var phase: nat
    var inFlight: seq<Command>
    var patience: nat
    ghost var submitted: seq<Command>
    ghost var posted: seq<Answer>
    ghost var consumed: seq<Completion>

    constructor ()
      ensures Idle() && submitted == [] && fresh(sq) && fresh(cq)
    {
      sq := new Command[DEPTH](_ => Command(0, 0, 0, 0, 0, 0));
      cq := new Completion[DEPTH](_ => Completion(0, 0, 0));
      sqTail, cqHead, cqPhase, sqDoorbell, cqDoorbell := 0, 0, 1, 0, 0;
      sqHead, cqTail, phase, inFlight, patience := 0, 0, 1, [], 0;
      submitted, posted, consumed := [], [], [];
    }

    /** The protocol state this object is in. */
    ghost function Abs(waiting: bool): State
      reads this, sq, cq
    {
      State(sqTail, cqHead, cqPhase, waiting, sq[..], cq[..], sqDoorbell, cqDoorbell,
            sqHead, cqTail, phase, inFlight, submitted, posted, consumed)
    }

    ghost predicate Idle()
      reads this, sq, cq
    {
      Inv(Abs(false))
    }

    ghost predicate Waiting()
      reads this, sq, cq
    {
      Inv(Abs(true))
    }

    /** A step of the controller as the protocol has it, or none for now. */
    method ControllerStep()
      requires Waiting() && |posted| == |consumed|
      modifies this`sqHead, this`cqTail, this`phase, this`inFlight, this`patience, this`posted, cq
      ensures Waiting() && old(posted) <= posted
      ensures var (s, t) := (old(Abs(true)), Abs(true));
        t == s || Fetch(s, t) || exists status :: Complete(s, t, 0, status)
      ensures |posted| + |inFlight| + |posted| > old(|posted| + |inFlight| + |posted|)
        || (|posted| + |inFlight| + |posted| == old(|posted| + |inFlight| + |posted|) && patience < old(patience))
    {
      hide PhaseOf, SlotPhase;
      Advance(|consumed|);
      ghost var before := Abs(true);
      var wait := *;
      if wait && patience > 0 {
        patience := patience - 1;
        assert Abs(true) == before;
      } else if sqHead != sqDoorbell {
        inFlight := inFlight + [sq[sqHead]];
        sqHead := (sqHead + 1) % DEPTH;
        patience := *;
        FetchKeeps(before, Abs(true));
      } else {
        AnswerStep();
      }
    }

    /** Answering the command in flight with some status. */
    method AnswerStep()
      requires Waiting() && |posted| == |consumed| && sqHead == sqDoorbell
      modifies this`cqTail, this`phase, this`inFlight, this`patience, this`posted, cq
      ensures Waiting() && |posted| == old(|posted|) + 1 && old(posted) <= posted && |inFlight| + 1 == old(|inFlight|)
      ensures exists status :: Complete(old(Abs(true)), Abs(true), 0, status)
    {
      hide PhaseOf, SlotPhase;
      ghost var before := Abs(true);
      InFlightHere(before);
      var command, status: nat := inFlight[0], *;
      if status >= STATUSES {
        status := 0;
      }
      cq[cqTail] := Completion(command.cid, status, phase);
      cqTail := (cqTail + 1) % DEPTH;
      phase := if cqTail == 0 then Flip(phase) else phase;
      inFlight := inFlight[1..];
      patience := *;
      posted := posted + [Answer(command, status)];
      assert before.inFlight[..0] + before.inFlight[1..] == inFlight;
      CompleteKeeps(before, Abs(true), 0, status);
    }

    lemma IdleCounts()
      requires Idle()
      ensures |posted| == |submitted| && sqTail < 64
    {}

    /**
    Submitting a command and polling for its completion, as every call of the driver does. Whatever the
    controller does meanwhile, the call returns the status given to this very command.
    */
    method Execute(request: Command) returns (word: nat)
      requires Idle()
      modifies this, sq, cq
      ensures Idle() && Agree(Abs(false))
      ensures Sent(old(submitted), old(posted), request.(cid := old(sqTail)))
      ensures word / 2 == posted[|posted| - 1].status < STATUSES && word == StatusWord(word / 2, word % 2)
    {
      IdleCounts();
      hide Inv, PhaseOf, SlotPhase;
      Post(request.(cid := sqTail));
      word := Poll();
    }

    /** The polling loop. */
    method Poll() returns (word: nat)
      requires Waiting()
      modifies this`sqHead, this`cqTail, this`phase, this`inFlight, this`patience, this`posted, cq,
        this`cqHead, this`cqPhase, this`cqDoorbell, this`consumed
      ensures Idle() && Agree(Abs(false)) && |posted| == |submitted| > 0 && old(posted) <= posted
      ensures posted[|posted| - 1].command == submitted[|submitted| - 1]
      ensures word / 2 == posted[|posted| - 1].status < STATUSES && word == StatusWord(word / 2, word % 2)
    {
      hide PhaseOf, SlotPhase, Inv;
      while true
        invariant Waiting() && old(posted) <= posted
        decreases 2 * |submitted| - (|posted| + |inFlight| + |posted|), patience
      {
        HostView(Abs(true));
        var cqe := cq[cqHead];
        if cqe.phase == cqPhase {
          TakeEntry(cqe);
          return StatusWord(cqe.status, cqe.phase);
        }
        ControllerStep();
      }
    }

    /** Moving past the accepted entry and ringing the doorbell. */
    method TakeEntry(cqe: Completion)
      requires Waiting() && cqHead < cq.Length && cqe == cq[cqHead] && cqe.phase == cqPhase
      modifies this`cqHead, this`cqPhase, this`cqDoorbell, this`consumed
      ensures PollTake(old(Abs(true)), Abs(false))
      ensures Idle() && Agree(Abs(false))
      ensures |posted| == |submitted| > 0 && cqe.phase <= 1
      ensures posted[|posted| - 1].command == submitted[|submitted| - 1]
      ensures posted[|posted| - 1].status == cqe.status < STATUSES
    {
      hide PhaseOf, SlotPhase;
      ghost var before := Abs(true);
      TagIsBit(before);
      TakesFresh(before);
      cqHead := (cqHead + 1) % DEPTH;
      if cqHead == 0 {
        cqPhase := Flip(cqPhase);
      }
      cqDoorbell := cqHead;
      consumed := consumed + [cqe];
      TakeKeeps(before, Abs(false));
    }

    /** Writing the entry and ringing the doorbell. */
    method Post(command: Command)
      requires Idle() && command.cid == sqTail
      modifies this`sqTail, this`sqDoorbell, this`submitted, sq
      ensures Submit(old(Abs(false)), Abs(true), command) && sqTail == (old(sqTail) + 1) % 64
      ensures Waiting() && submitted == old(submitted) + [command]
    {
      ghost var before := Abs(false);
      sq[sqTail] := command;
      sqTail := (sqTail + 1) % DEPTH;
      sqDoorbell := sqTail;
      submitted := submitted + [command];
      SubmitKeeps(before, Abs(true), command);
    }

    /** What `read` and `write` do alike. */
    method Transfer(opcode: nat, lba: nat, count: nat) returns (ok: bool)
      requires Idle()
      modifies this, sq, cq
      ensures Idle() && Agree(Abs(false)) && |posted| == |submitted| == old(|submitted|) + 1
      ensures posted[|posted| - 1].command == IoCommand(opcode, old(sqTail), lba, count)
      ensures ok <==> posted[|posted| - 1].status == 0
    {
      hide Inv, PhaseOf, SlotPhase;
      var word := Execute(IoCommand(opcode, sqTail, lba, count));
      VerdictIgnoresPhase(word / 2, word % 2);
      ok := CheckStatus(word);
    }

    /** `read`: the command is opcode 0x02 on namespace 1 for this address and this many blocks. */
    method Read(lba: nat, count: nat) returns (ok: bool)
      requires Idle() && lba < U64 && count < 0x1_0000_0000
      modifies this, sq, cq
      ensures Idle() && Agree(Abs(false)) && |posted| == |submitted| == old(|submitted|) + 1
      ensures var c := posted[|posted| - 1].command;
        && c.cid == old(sqTail) && c.opcode == 0x02 && c.nsid == 1
        && c.cdw10 < 0x1_0000_0000 && c.cdw10 + 0x1_0000_0000 * c.cdw11 == lba
        && c.cdw12 == if count == 0 then 0xFFFF else (count - 1) % 0x1_0000
      ensures ok <==> posted[|posted| - 1].status == 0
    {
      hide Inv, PhaseOf, SlotPhase;
      IoCommandFields(2, sqTail, lba, count);
      hide IoCommand;
      ok := Transfer(2, lba, count);
    }

    /** `write`: opcode 0x01, all else alike. */
    method Write(lba: nat, count: nat) returns (ok: bool)
      requires Idle() && lba < U64 && count < 0x1_0000_0000
      modifies this, sq, cq
      ensures Idle() && Agree(Abs(false)) && |posted| == |submitted| == old(|submitted|) + 1
      ensures var c := posted[|posted| - 1].command;
        && c.cid == old(sqTail) && c.opcode == 0x01 && c.nsid == 1
        && c.cdw10 < 0x1_0000_0000 && c.cdw10 + 0x1_0000_0000 * c.cdw11 == lba
        && c.cdw12 == if count == 0 then 0xFFFF else (count - 1) % 0x1_0000
      ensures ok <==> posted[|posted| - 1].status == 0
    {
      hide Inv, PhaseOf, SlotPhase;
      IoCommandFields(1, sqTail, lba, count);
      hide IoCommand;
      ok := Transfer(1, lba, count);
    }

    /** An admin command that succeeds exactly for status 0. */
    method Admin(request: Command) returns (ok: bool)
      requires Idle()
      modifies this, sq, cq
      ensures Idle() && Agree(Abs(false)) && Sent(old(submitted), old(posted), request.(cid := old(sqTail)))
      ensures ok <==> posted[|posted| - 1].status == 0
    {
      hide Inv, PhaseOf, SlotPhase;
      var word := Execute(request);
      VerdictIgnoresPhase(word / 2, word % 2);
      ok := CheckStatus(word);
    }

    /** One more command has been sent, in the slot of its number, and answered; the history before it is as it was. */
    ghost predicate Sent(submitted0: seq<Command>, posted0: seq<Answer>, command: Command)
      reads this
    {
      && submitted == submitted0 + [command] && |posted| == |submitted|
      && posted == posted0 + [posted[|posted| - 1]] && posted[|posted| - 1].command == command
      && sqTail == (command.cid + 1) % 64
    }

    /** `identify`. */
    method Identify() returns (ok: bool)
      requires Idle()
      modifies this, sq, cq
      ensures Idle() && Agree(Abs(false))
      ensures Sent(old(submitted), old(posted), Command(old(sqTail), 0x06, 0xFFFF_FFFF, 1, 0, 0))
      ensures ok <==> posted[|posted| - 1].status == 0
    {
      hide Inv, PhaseOf, SlotPhase;
      ok := Admin(Command(0, 6, 0xFFFF_FFFF, 1, 0, 0));
    }

    /** `identify_namespace`. */
    method IdentifyNamespace() returns (ok: bool)
      requires Idle()
      modifies this, sq, cq
      ensures Idle() && Agree(Abs(false))
      ensures Sent(old(submitted), old(posted), Command(old(sqTail), 0x06, 1, 0, 0, 0))
      ensures ok <==> posted[|posted| - 1].status == 0
    {
      hide Inv, PhaseOf, SlotPhase;
      ok := Admin(Command(0, 6, 1, 0, 0, 0));
    }

    /** `format_namespace`. */
    method FormatNamespace() returns (ok: bool)
      requires Idle()
      modifies this, sq, cq
      ensures Idle() && Agree(Abs(false))
      ensures Sent(old(submitted), old(posted), Command(old(sqTail), 0x80, 1, 0, 0, 0))
      ensures ok <==> posted[|posted| - 1].status == 0
    {
      hide Inv, PhaseOf, SlotPhase;
      ok := Admin(Command(0, 0x80, 1, 0, 0, 0));
    }

    /** `namespace_attach`: being told that the namespace is already attached is a success too. */
    method NamespaceAttach() returns (ok: bool)
      requires Idle()
      modifies this, sq, cq
      ensures Idle() && Agree(Abs(false))
      ensures Sent(old(submitted), old(posted), Command(old(sqTail), 0x15, 1, 0, 0, 0))
      ensures var status := posted[|posted| - 1].status;
        ok <==> status == 0 || (status / 0x100 % 8 == 1 && status % 0x100 == 0x18)
    {
      hide Inv, PhaseOf, SlotPhase;
      var word := Execute(Command(0, 0x15, 1, 0, 0, 0));
      VerdictIgnoresPhase(word / 2, word % 2);
      ok := AttachAccepts(word);
    }

    /**
    `create_io_queues`: the completion queue, opcode 0x05, then the submission queue, opcode 0x01, both with
    identifier 1 and 64 entries; the second is sent only if the first succeeded.
    */
    method CreateIoQueues() returns (ok: bool)
      requires Idle()
      modifies this, sq, cq
      ensures Idle() && Agree(Abs(false)) && |posted| == |submitted| && old(posted) <= posted
      ensures var n := |old(submitted)|;
        && n < |submitted| <= n + 2 && old(submitted) <= submitted
        && submitted[n] == Command(old(sqTail), 0x05, 0, 0x3F_0001, 1, 0)
        && (|submitted| == n + 2 <==> posted[n].status == 0)
        && (|submitted| == n + 2 ==>
              submitted[n + 1] == Command((old(sqTail) + 1) % 64, 0x01, 0, 0x3F_0001, 0x1_0001, 0))
      ensures ok <==> |submitted| == old(|submitted|) + 2 && posted[|posted| - 1].status == 0
    {
      hide Inv, PhaseOf, SlotPhase;
      ok := Admin(Command(0, 5, 0, 63 * 0x1_0000 + 1, 1, 0));
      if ok {
        ok := Admin(Command(0, 1, 0, 63 * 0x1_0000 + 1, 0x1_0001, 0));
      }
    }

    /** The two identify commands of `init`. */
    method BringUpIdentify() returns (ok: bool, ghost commands: seq<Command>, ghost answers: seq<Answer>)
      requires Idle()
      modifies this, sq, cq
      ensures Idle() && Agree(Abs(false)) && sqTail == (old(sqTail) + |commands|) % 64
      ensures submitted == old(submitted) + commands && posted == old(posted) + answers
      ensures 0 < |answers| == |commands| <= 2 && Progress(old(sqTail), commands, answers)
      ensures ok <==> |answers| == 2 && Accepted(1, answers[1].status)
      ensures !ok ==> !Accepted(|answers| - 1, answers[|answers| - 1].status)
    {
      IdleCounts();
      ghost var tail := sqTail;
      NextSlot(tail, 0);
      NothingYet(tail);
      hide Inv, PhaseOf, SlotPhase, Progress;
      ok := Identify();
      commands, answers := [submitted[|submitted| - 1]], [posted[|posted| - 1]];
      Proceeds(tail, [], [], commands[0], answers[0]);
      assert [] + commands == commands && [] + answers == answers;
      if ok {
        ok := IdentifyNamespace();
        NextSlot(tail, 1);
        Proceeds(tail, commands, answers, submitted[|submitted| - 1], posted[|posted| - 1]);
        commands, answers := commands + [submitted[|submitted| - 1]], answers + [posted[|posted| - 1]];
      }
    }

    /** And the two that format and attach the namespace. */
    method BringUpNamespace() returns (ok: bool, ghost commands: seq<Command>, ghost answers: seq<Answer>)
      requires Idle()
      modifies this, sq, cq
      ensures Idle() && Agree(Abs(false)) && sqTail == (old(sqTail) + |commands|) % 64
      ensures submitted == old(submitted) + commands && posted == old(posted) + answers
      ensures 0 < |answers| == |commands| <= 4 && Progress(old(sqTail), commands, answers)
      ensures ok <==> |answers| == 4 && Accepted(3, answers[3].status)
      ensures !ok ==> !Accepted(|answers| - 1, answers[|answers| - 1].status)
    {
      hide Inv, PhaseOf, SlotPhase, Progress;
      ghost var tail := sqTail;
      ok, commands, answers := BringUpIdentify();
      if ok {
        ok := FormatNamespace();
        NextSlot(tail, 2);
        Proceeds(tail, commands, answers, submitted[|submitted| - 1], posted[|posted| - 1]);
        commands, answers := commands + [submitted[|submitted| - 1]], answers + [posted[|posted| - 1]];
      }
      if ok {
        ok := NamespaceAttach();
        NextSlot(tail, 3);
        Proceeds(tail, commands, answers, submitted[|submitted| - 1], posted[|posted| - 1]);
        commands, answers := commands + [submitted[|submitted| - 1]], answers + [posted[|posted| - 1]];
      }
    }

    /**
    The commands of `init`, in their order and numbered by the slots they are in; it gives up at the first that
    fails.
    */
    method BringUp() returns (ok: bool, ghost commands: seq<Command>, ghost answers: seq<Answer>)
      requires Idle()
      modifies this, sq, cq
      ensures Idle() && Agree(Abs(false))
      ensures submitted == old(submitted) + commands && posted == old(posted) + answers
      ensures 0 < |answers| == |commands| <= 6 && Progress(old(sqTail), commands, answers)
      ensures ok <==> |answers| == 6 && Accepted(5, answers[5].status)
      ensures !ok ==> !Accepted(|answers| - 1, answers[|answers| - 1].status)
    {
      IdleCounts();
      hide Inv, PhaseOf, SlotPhase, Progress;
      ghost var tail := sqTail;
      ok, commands, answers := BringUpNamespace();
      if ok {
        ghost var m := |posted|;
        ok := CreateIoQueues();
        NextSlot(tail, 4);
        NextSlot(tail, 5);
        Proceeds(tail, commands, answers, submitted[m], posted[m]);
        commands, answers := commands + [submitted[m]], answers + [posted[m]];
        if |posted| == m + 2 {
          Proceeds(tail, commands, answers, submitted[m + 1], posted[m + 1]);
          commands, answers := commands + [submitted[m + 1]], answers + [posted[m + 1]];
        }
      }
    }
  }

  /** Status 0, or for the fourth command the one that says the namespace is already attached. */
  predicate Accepted(i: nat, status: nat)
  {
    status == 0 || (i == 3 && status / 0x100 % 8 == 1 && status % 0x100 == 0x18)
  }

  /** These are the first commands of a bring-up and their answers, all but perhaps the last accepted. */
  predicate Progress(tail: nat, commands: seq<Command>, answers: seq<Answer>)
  {
    && |commands| == |answers|
    && (forall i :: 0 <= i < |commands| ==> commands[i] == BringUpCommand(tail, i))
    && (forall i :: 0 <= i < |answers| - 1 ==> Accepted(i, answers[i].status))
  }

  lemma NothingYet(tail: nat)
    ensures Progress(tail, [], [])
  {}

  lemma Proceeds(tail: nat, commands: seq<Command>, answers: seq<Answer>, command: Command, answer: Answer)
    requires Progress(tail, commands, answers) && command == BringUpCommand(tail, |commands|)
    requires answers != [] ==> Accepted(|answers| - 1, answers[|answers| - 1].status)
    ensures Progress(tail, commands + [command], answers + [answer])
  {
    hide BringUpCommand, Accepted;
  }

  lemma NextSlot(tail: nat, i: nat)
    ensures ((tail + i) % 64 + 1) % 64 == (tail + i + 1) % 64
  {}

  /** The commands of a bring-up: identify, identify and format the namespace, attach it, create the two queues. */
  function BringUpCommand(tail: nat, i: nat): Command
  {
    var cid := (tail + i) % 64;
    match i
    case 0 => Command(cid, 0x06, 0xFFFF_FFFF, 1, 0, 0)
    case 1 => Command(cid, 0x06, 1, 0, 0, 0)
    case 2 => Command(cid, 0x80, 1, 0, 0, 0)
    case 3 => Command(cid, 0x15, 1, 0, 0, 0)
    case 4 => Command(cid, 0x05, 0, 0x3F_0001, 1, 0)
    case _ => Command(cid, 0x01, 0, 0x3F_0001, 0x1_0001, 0)
  }
}
