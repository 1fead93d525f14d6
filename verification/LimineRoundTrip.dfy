/** Installing, storing the journal in a file, and uninstalling from that file in a later call of the program. */
module LimineRoundTrip {
  import opened Bytes
  import opened LimineUndo
  import opened LimineDevice
  import opened LimineUninstallFile

  /** No request to the device ever fails. */
  ghost predicate Faultless(faults: nat -> bool) { forall t: nat :: !faults(t) }

  datatype Outcome = RolledBack(complete: bool) | NotStored | Stored(file: seq<byte>)

  lemma JournalStorable(log: seq<Entry>, size: nat)
    requires NoneEmpty(log) && AllInRange(log, size) && size < U64 && |log| <= MAX_ENTRIES
    ensures Storable(log)
  {
    forall i | 0 <= i < |log| ensures log[i].loc < U64 && |log[i].data| < U64 {
      assert InRange(log[i], size);
    }
  }

  /**
  An installation with its cleanup: given up, by a failed access or by the program's own checks, it is rolled
  back; completed, the reversed journal is stored, if the file can be written and no entry is empty. Loading the
  file gives a journal that brings the disk back.
  */
  method Install(device: Device, ops: seq<Op>, finish: bool, writable: bool, room: Option<nat>)
    returns (outcome: Outcome, ghost whole: bool)
    requires device.Valid() && !device.dirty && !device.garbled && !device.uninstalling && device.undoCount == 0
    requires |device.disk| < U64
    modifies device, device.cache, device.undo, device.undoRev
    ensures device.Valid() && |device.disk| == old(|device.disk|)
    ensures outcome.RolledBack? && outcome.complete && whole ==> device.disk == old(device.disk)
    ensures device.Calm(old(device.clock)) || AllIndivisible(ops, device.blockSize) || !outcome.RolledBack? ==> whole
    ensures device.clock >= old(device.clock)
    ensures device.Calm(old(device.clock)) && outcome.RolledBack? ==> outcome.complete
    ensures var lastServed := device.clock > 0 ==> !device.faults(device.clock - 1);
      outcome.RolledBack? && whole && device.Mild(old(device.clock)) && lastServed ==> outcome.complete
    ensures !finish || !Doable(ops, |device.disk|, 0) ==> outcome.RolledBack?
    ensures device.Calm(old(device.clock)) && finish && Doable(ops, |device.disk|, 0) ==> !outcome.RolledBack?
    ensures !outcome.RolledBack? ==> device.disk == Replay(old(device.disk), Writes(ops))
    ensures outcome.NotStored? ==>
      !NoEmptyWrites(ops) || !writable || !HasRoom(room, |FileBytes(device.Log())|)
    ensures outcome.Stored? ==>
      var log := Parse(outcome.file);
      && log.Some? && |log.value| <= MAX_ENTRIES && AllInRange(log.value, |device.disk|)
      && Replay(device.disk, log.value) == old(device.disk)
  {
    hide BlockOf, OffsetIn, Base, AllInRange, Parse, FileBytes, ToLE, FromLE, NoneEmpty, Replay, NoEmptyWrites,
      Doable;
    hide Quiet, OneFault;
    var installed;
    installed, whole := device.Attempt(ops, finish);
    ghost var now := device.clock;
    if installed {
      outcome := Save(device.undo[..device.undoCount], |device.disk|, writable, room);
    } else {
      var complete := device.Uninstall();
      Narrower(device.faults, old(device.clock), now, device.clock);
      outcome := RolledBack(complete);
    }
  }

  /** Storing a journal for a device of `size` bytes. */
  method Save(log: seq<Entry>, ghost size: nat, writable: bool, room: Option<nat>) returns (outcome: Outcome)
    requires AllInRange(log, size) && size < U64 && |log| <= MAX_ENTRIES
    ensures !outcome.RolledBack?
    ensures outcome.NotStored? ==> !NoneEmpty(log) || !writable || !HasRoom(room, |FileBytes(log)|)
    ensures outcome.Stored? ==> Parse(outcome.file) == Some(log)
  {
    hide AllInRange, Parse, FileBytes, ToLE, FromLE;
    var stored, file := StoreUninstallData(log, writable, room);
    if !stored {
      return NotStored;
    }
    JournalStorable(log, size);
    StoredReadsBackIff(log, []);
    assert file + [] == file;
    return Stored(file);
  }

  /** The uninstall mode of the program: loading the file and replaying it. */
  method UninstallFrom(device: Device, file: seq<byte>) returns (ok: bool)
    requires device.Valid() && !device.dirty
    modifies device, device.cache, device.undo
    ensures device.Valid() && device.clock >= old(device.clock)
    ensures Parse(file).None? ==> !ok && device.disk == old(device.disk)
    ensures Parse(file).Some? ==>
      var log := Parse(file).value;
      && |log| <= MAX_ENTRIES && (ok ==> AllInRange(log, |device.disk|))
      && (ok || device.Calm(old(device.clock)) ==> device.disk == Replay(old(device.disk), log))
      && (device.Calm(old(device.clock)) && AllInRange(log, |device.disk|) ==> ok)
      && var lastServed := device.clock > old(device.clock) ==> !device.faults(device.clock - 1);
         device.Mild(old(device.clock)) && AllInRange(log, |device.disk|) && lastServed ==> ok
  {
    hide BlockOf, OffsetIn, Base, FromLE, AllInRange;
    var log := LoadUninstallData(file);
    if log.None? {
      return false;
    }
    ParsedNonEmpty(file, 8, FromLE(file[..8]));
    device.LoadJournal(log.value);
    ok := device.Uninstall();
  }

  /**
  Whatever an installation did to a disk, completed or given up anywhere: if the roll-back or the later
  uninstallation from the file reports success, the disk is as it was, on every device if no write goes beyond
  one block, and for any writes if the installation met no faults. Without faults in either call, with room for
  the file and without empty writes success is certain.
  */
  method InstallThenUninstall(disk: seq<byte>, blockSize: nat, faults: nat -> bool, ops: seq<Op>, finish: bool,
                              writable: bool, room: Option<nat>, laterBlockSize: nat, laterFaults: nat -> bool)
    returns (undone: bool, after: seq<byte>, ghost whole: bool)
    requires 0 < blockSize <= |disk| < U64 && OffsetIn(|disk|, blockSize) == 0
    requires 0 < laterBlockSize <= |disk| && OffsetIn(|disk|, laterBlockSize) == 0
    ensures undone && (Faultless(faults) || AllIndivisible(ops, blockSize)) ==> after == disk
    ensures Faultless(faults) && Faultless(laterFaults) && writable && room == None && NoEmptyWrites(ops) ==> undone
    ensures (undone && whole ==> after == disk) && (Faultless(faults) || AllIndivisible(ops, blockSize) ==> whole)
  {
    hide BlockOf, OffsetIn, Base, FromLE, Parse, AllInRange, FileBytes;
    var device := new Device(disk, blockSize, faults);
    var outcome;
    outcome, whole := Install(device, ops, finish, writable, room);
    match outcome
    case NotStored => undone, after := false, device.disk;
    case RolledBack(complete) => undone, after := complete, device.disk;
    case Stored(file) =>
      var later := new Device(device.disk, laterBlockSize, laterFaults);
      undone := UninstallFrom(later, file);
      after := later.disk;
  }
}
