/** The file in which the undo journal survives the installer: a count, then the entries. */
module LimineUninstallFile {
  import opened Bytes
  import opened LimineUndo

  const MAX_ENTRIES := 256

  function EntryBytes(e: Entry): seq<byte> { ToLE(e.loc, 8) + ToLE(|e.data|, 8) + e.data }

  function EntriesBytes(log: seq<Entry>): seq<byte>
  {
    if log == [] then [] else EntryBytes(log[0]) + EntriesBytes(log[1..])
  }

  function FileBytes(log: seq<Entry>): seq<byte> { ToLE(|log|, 8) + EntriesBytes(log) }

  lemma EntriesFrom(log: seq<Entry>, i: nat)
    requires i < |log|
    ensures EntriesBytes(log[i..])
         == (ToLE(log[i].loc, 8) + ToLE(|log[i].data|, 8)) + log[i].data + EntriesBytes(log[i + 1..])
  {
    assert log[i..][1..] == log[i + 1..];
  }

  lemma Regroup(a: seq<byte>, b: seq<byte>, c: seq<byte>, d: seq<byte>)
    ensures a + (b + c + d) == a + b + c + d
  {}

  /** Where the `i`-th entry begins in the file. */
  function EntryStart(log: seq<Entry>, i: nat): nat
    requires i <= |log|
  {
    if i == 0 then 8 else EntryStart(log, i - 1) + 16 + |log[i - 1].data|
  }

  lemma {:induction false} EntriesBehind(log: seq<Entry>, i: nat)
    requires i <= |log|
    ensures EntryStart(log, i) <= |FileBytes(log)|
    ensures FileBytes(log)[EntryStart(log, i)..] == EntriesBytes(log[i..])
  {
    hide ToLE;
    if i == 0 {
      assert log[0..] == log;
    } else {
      EntriesBehind(log, i - 1);
      EntriesFrom(log, i - 1);
      hide FileBytes, EntriesBytes;
      var rest, n := FileBytes(log)[EntryStart(log, i - 1)..], 16 + |log[i - 1].data|;
      assert rest[n..] == EntriesBytes(log[i..]);
      assert FileBytes(log)[EntryStart(log, i)..] == rest[n..];
    }
  }

  lemma FileEnds(log: seq<Entry>)
    ensures EntryStart(log, |log|) == |FileBytes(log)| >= 8 && FileBytes(log)[..8] == ToLE(|log|, 8)
  {
    EntriesBehind(log, |log|);
    assert log[|log|..] == [];
    hide ToLE, EntryStart;
  }

  /**
  The file: eight bytes of count, then for each entry eight bytes of position, eight of length and the data;
  nothing follows the last.
  */
  lemma StoredEntryAt(log: seq<Entry>, i: nat)
    requires i < |log|
    ensures var (f, at, n) := (FileBytes(log), EntryStart(log, i), |log[i].data|);
      && EntryStart(log, |log|) == |f| && at + 16 + n <= |f|
      && f[..8] == ToLE(|log|, 8)
      && f[at..at + 8] == ToLE(log[i].loc, 8) && f[at + 8..at + 16] == ToLE(n, 8)
      && f[at + 16..at + 16 + n] == log[i].data
  {
    hide *;
    EntriesBehind(log, i);
    EntriesFrom(log, i);
    FileEnds(log);
    EntrySlices(FileBytes(log), EntryStart(log, i), ToLE(log[i].loc, 8), ToLE(|log[i].data|, 8), log[i].data,
                EntriesBytes(log[i + 1..]));
  }

  predicate Storable(log: seq<Entry>)
  {
    |log| <= 256 && forall i :: 0 <= i < |log| ==> log[i].loc < U64 && |log[i].data| < U64
  }

  /** A medium with room for `room` bytes, or with room for any number. */
  predicate HasRoom(room: Option<nat>, size: nat) { room.Some? ==> size <= room.value }

  lemma NoRoomLater(log: seq<Entry>, file: seq<byte>, rest: seq<byte>, room: Option<nat>, size: nat)
    requires FileBytes(log) == file + rest && size <= |rest| && !HasRoom(room, |file| + size)
    ensures !HasRoom(room, |FileBytes(log)|)
  {}

  /**
  `store_uninstall_data`. It fails if the file cannot be opened or the medium is full, and for an empty entry,
  since `fwrite` of an empty item reports failure.
  */
  method StoreUninstallData(log: seq<Entry>, writable: bool, room: Option<nat>) returns (ok: bool, file: seq<byte>)
    ensures ok <==> writable && HasRoom(room, |FileBytes(log)|) && forall i :: 0 <= i < |log| ==> log[i].data != []
    ensures ok ==> file == FileBytes(log)
    ensures HasRoom(room, |file|) && file <= FileBytes(log)
  {
    hide ToLE, EntriesBytes, FileBytes;
    file := [];
    if !writable {
      return false, file;
    }
    FileParts(log);
    if !HasRoom(room, 8) {
      return false, file;
    }
    file := ToLE(|log|, 8);
    var i := 0;
    while i < |log|
      invariant 0 <= i <= |log| && HasRoom(room, |file|)
      invariant forall k :: 0 <= k < i ==> log[k].data != []
      invariant file + EntriesBytes(log[i..]) == FileBytes(log)
    {
      EntriesFrom(log, i);
      var header, data := ToLE(log[i].loc, 8) + ToLE(|log[i].data|, 8), log[i].data;
      Regroup(file, header, data, EntriesBytes(log[i + 1..]));
      if !HasRoom(room, |file| + 16) {
        NoRoomLater(log, file, EntriesBytes(log[i..]), room, 16);
        return false, file;
      }
      if data == [] {
        return false, file + header;
      }
      if !HasRoom(room, |file| + 16 + |data|) {
        NoRoomLater(log, file, EntriesBytes(log[i..]), room, 16 + |data|);
        return false, file + header;
      }
      file := file + header + data;
      i := i + 1;
    }
    assert log[i..] == [] && file + [] == file;
    return true, file;
  }

  lemma FileParts(log: seq<Entry>)
    ensures FileBytes(log) == ToLE(|log|, 8) + EntriesBytes(log[0..]) && |FileBytes(log)| >= 8
    ensures EntriesBytes([]) == []
  {
    assert log[0..] == log;
  }

  function Join(a: seq<Entry>, b: Option<seq<Entry>>): Option<seq<Entry>>
  {
    match b case None => None case Some(rest) => Some(a + rest)
  }

  lemma JoinJoin(a: seq<Entry>, b: seq<Entry>, c: Option<seq<Entry>>)
    ensures Join(a, Join(b, c)) == Join(a + b, c)
    ensures Join([], c) == c
  {
    if c.Some? {
      assert a + (b + c.value) == (a + b) + c.value && [] + c.value == c.value;
    }
  }

  /** What `load_uninstall_data` accepts from position `pos` on, with `n` entries to go. */
  function ParseEntries(file: seq<byte>, pos: nat, n: nat): Option<seq<Entry>>
    requires pos <= |file|
    decreases n
  {
    if n == 0 then Some([])
    else if pos + 16 > |file| then None
    else
      var loc, count := FromLE(file[pos..pos + 8]), FromLE(file[pos + 8..pos + 16]);
      if count == 0 || pos + 16 + count > |file| then None
      else Join([Entry(loc, file[pos + 16..pos + 16 + count])], ParseEntries(file, pos + 16 + count, n - 1))
  }

  function Parse(file: seq<byte>): Option<seq<Entry>>
  {
    if |file| < 8 || FromLE(file[..8]) > MAX_ENTRIES then None else ParseEntries(file, 8, FromLE(file[..8]))
  }

  /** `load_uninstall_data`. */
  method LoadUninstallData(file: seq<byte>) returns (log: Option<seq<Entry>>)
    ensures log == Parse(file)
  {
    hide FromLE;
    if |file| < 8 {
      return None;
    }
    var n := FromLE(file[..8]);
    if n > MAX_ENTRIES {
      return None;
    }
    var entries: seq<Entry> := [];
    var i, pos := 0, 8;
    JoinJoin([], [], ParseEntries(file, 8, n));
    while i < n
      invariant 0 <= i <= n && 8 <= pos <= |file|
      invariant Parse(file) == Join(entries, ParseEntries(file, pos, n - i))
    {
      if pos + 16 > |file| {
        return None;
      }
      var loc, count := FromLE(file[pos..pos + 8]), FromLE(file[pos + 8..pos + 16]);
      if count == 0 || pos + 16 + count > |file| {
        return None;
      }
      var e := Entry(loc, file[pos + 16..pos + 16 + count]);
      JoinJoin(entries, [e], ParseEntries(file, pos + 16 + count, n - i - 1));
      entries := entries + [e];
      i, pos := i + 1, pos + 16 + count;
    }
    assert entries + [] == entries;
    return Some(entries);
  }

  /** A file that claims more than 256 entries is refused. */
  lemma TooManyEntries(file: seq<byte>)
    requires |file| >= 8 && FromLE(file[..8]) > 256
    ensures Parse(file) == None
  {
    hide FromLE;
  }

  lemma {:induction false} EntriesReadBack(file: seq<byte>, pos: nat, log: seq<Entry>, tail: seq<byte>)
    requires Storable(log) && forall i :: 0 <= i < |log| ==> log[i].data != []
    requires pos <= |file| && file[pos..] == EntriesBytes(log) + tail
    ensures ParseEntries(file, pos, |log|) == Some(log)
    decreases |log|
  {
    if log != [] {
      hide ToLE, FromLE;
      var e := log[0];
      var next := pos + 16 + |e.data|;
      Pow256Widths();
      LERoundTrip(e.loc, 8);
      LERoundTrip(|e.data|, 8);
      var rest := EntriesBytes(log[1..]) + tail;
      assert file[pos..] == ToLE(e.loc, 8) + ToLE(|e.data|, 8) + e.data + rest;
      EntrySlices(file, pos, ToLE(e.loc, 8), ToLE(|e.data|, 8), e.data, rest);
      EntriesReadBack(file, next, log[1..], tail);
      assert [e] + log[1..] == log;
    }
  }

  lemma EntrySlices(file: seq<byte>, pos: nat, a: seq<byte>, b: seq<byte>, c: seq<byte>, rest: seq<byte>)
    requires pos <= |file| && |a| == |b| == 8 && file[pos..] == a + b + c + rest
    ensures pos + 16 + |c| <= |file|
    ensures file[pos..pos + 8] == a && file[pos + 8..pos + 16] == b
    ensures file[pos + 16..pos + 16 + |c|] == c && file[pos + 16 + |c|..] == rest
  {
    var s := file[pos..];
    assert file[pos..pos + 8] == s[..8] && file[pos + 8..pos + 16] == s[8..16];
    assert file[pos + 16..pos + 16 + |c|] == s[16..16 + |c|] && file[pos + 16 + |c|..] == s[16 + |c|..];
  }

  /** Storing and loading a journal gives it back, exactly if no entry is empty; trailing bytes are ignored. */
  lemma StoredReadsBackIff(log: seq<Entry>, tail: seq<byte>)
    requires Storable(log)
    ensures Parse(FileBytes(log) + tail) == Some(log) <==> forall i :: 0 <= i < |log| ==> log[i].data != []
  {
    hide ToLE, FromLE;
    var file := FileBytes(log) + tail;
    Pow256Widths();
    LERoundTrip(|log|, 8);
    assert file[..8] == ToLE(|log|, 8) && file[8..] == EntriesBytes(log) + tail;
    if forall i :: 0 <= i < |log| ==> log[i].data != [] {
      EntriesReadBack(file, 8, log, tail);
    } else {
      ParsedNonEmpty(file, 8, |log|);
    }
  }

  /** A journal of one empty entry is such a journal. */
  lemma EmptyEntryIsLost(loc: nat, tail: seq<byte>)
    requires loc < U64
    ensures Parse(FileBytes([Entry(loc, [])]) + tail) != Some([Entry(loc, [])])
  {
    StoredReadsBackIff([Entry(loc, [])], tail);
  }

  lemma {:induction false} ParsedNonEmpty(file: seq<byte>, pos: nat, n: nat)
    requires pos <= |file|
    ensures match ParseEntries(file, pos, n)
      case None => true
      case Some(log) => |log| == n && forall i :: 0 <= i < n ==> log[i].data != []
    decreases n
  {
    hide FromLE;
    if n > 0 && ParseEntries(file, pos, n).Some? {
      ParsedNonEmpty(file, pos + 16 + FromLE(file[pos + 8..pos + 16]), n - 1);
    }
  }

  /**
  The whole way round: the reversed journal, stored, loaded by a later call and replayed, brings every disk
  that the installer may have left back to the original, if no entry is empty.
  */
  lemma StoredJournalRestores(orig: seq<byte>, log: seq<Entry>, disk: seq<byte>)
    requires Saves(orig, log) && Keeps(orig, log, disk)
    requires Storable(log) && forall i :: 0 <= i < |log| ==> log[i].data != []
    ensures var loaded := Parse(FileBytes(Reverse(log)));
      loaded.Some? && Replay(disk, loaded.value) == orig
  {
    hide ToLE, FromLE, Parse, FileBytes;
    StoredReadsBackIff(Reverse(log), []);
    assert FileBytes(Reverse(log)) + [] == FileBytes(Reverse(log));
    UndoRestores(orig, log, disk);
  }
}
