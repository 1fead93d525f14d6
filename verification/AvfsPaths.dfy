/** The virtual file system's view of a path, `drive://directory`, and what it does to the data it is given. */
module AvfsPaths {
  import opened Bytes
  import opened AbtrFormat
  import opened AbtrLayout
  import opened AbtrPlan
  import opened AbtrTheorems
  import opened AbtrRuns
  import opened AbtrGrowth

  const COLON: byte := 58
  const SPACE: byte := 32

  /** A path array holding a text. */
  function PathOf(s: seq<byte>): Path
    requires |s| <= PATH_SIZE
  {
    s + Zeros(PATH_SIZE - |s|)
  }

  /** The position of the first colon of the path, if "//" follows it. */
  function Separator(path: Path, from: nat): (i: Option<nat>)
    requires from <= |NameOf(path)|
    ensures i.Some? ==> from <= i.value && i.value + 3 <= PATH_SIZE
    decreases |NameOf(path)| - from
  {
    if from == |NameOf(path)| then None
    else if path[from] != COLON then Separator(path, from + 1)
    else if from + 2 < PATH_SIZE && path[from + 1] == SLASH && path[from + 2] == SLASH then Some(from)
    else None
  }

  /** The separator is the first colon of the path, before any NUL, with two slashes right behind it. */
  lemma SeparatorIff(path: Path, i: nat)
    ensures Separator(path, 0) == Some(i) <==>
      && i + 3 <= 2048 && path[i..i + 3] == [58, 47, 47] && forall k :: 0 <= k < i ==> path[k] != 58 && path[k] != 0
  {
    SeparatorFrom(path, 0, i);
    hide NameOf, Separator;
  }

  lemma {:induction false} SeparatorFrom(path: Path, from: nat, i: nat)
    requires from <= |NameOf(path)| && forall k :: 0 <= k < from ==> path[k] != COLON && path[k] != 0
    ensures Separator(path, from) == Some(i) <==>
      && i + 3 <= 2048 && path[i..i + 3] == [58, 47, 47] && forall k :: 0 <= k < i ==> path[k] != 58 && path[k] != 0
    decreases |NameOf(path)| - from
  {
    hide NameOf;
    if i + 3 <= 2048 {
      ThreeBytes(path, i);
    }
    var n := |NameOf(path)|;
    assert forall k :: 0 <= k < n ==> path[k] == NameOf(path)[k] != 0;
    if from < n && path[from] != COLON {
      SeparatorFrom(path, from + 1, i);
    }
  }

  lemma ThreeBytes(path: Path, i: nat)
    requires i + 3 <= 2048
    ensures path[i..i + 3] == [58, 47, 47] <==> path[i] == 58 && path[i + 1] == 47 && path[i + 2] == 47
  {
    assert path[i..i + 3] == [path[i], path[i + 1], path[i + 2]];
  }

  function TrimRight(s: seq<byte>): (t: seq<byte>)
    ensures |t| <= |s| && t == s[..|t|] && (t != [] ==> t[|t| - 1] != SPACE)
    ensures forall i :: |t| <= i < |s| ==> s[i] == SPACE
  {
    if s == [] || s[|s| - 1] != SPACE then s else TrimRight(s[..|s| - 1])
  }

  /** What is left is the text up to the last byte that is not a space. */
  lemma {:induction false} TrimRightIs(s: seq<byte>, n: nat)
    requires n <= |s| && (n > 0 ==> s[n - 1] != 32) && forall i :: n <= i < |s| ==> s[i] == 32
    ensures TrimRight(s) == s[..n]
  {
    if n < |s| {
      TrimRightIs(s[..|s| - 1], n);
      assert s[..|s| - 1][..n] == s[..n];
    } else {
      assert s[..n] == s;
    }
  }

  /** `findDrive`. */
  method FindDrive(path: Path) returns (drive: Option<seq<byte>>)
    ensures drive == match Separator(path, 0) case None => None case Some(i) => Some(TrimRight(path[..i]))
  {
    var driveName: seq<byte> := [];
    var i := 0;
    ghost var name := NameOf(path);
    hide NameOf;
    while i < PATH_SIZE
      invariant 0 <= i <= |name| && driveName == path[..i]
      invariant Separator(path, 0) == Separator(path, i)
    {
      var c := path[i];
      if c == 0 {
        break;
      }
      if c == COLON {
        if i + 1 < PATH_SIZE && path[i + 1] == SLASH {
          if i + 2 < PATH_SIZE && path[i + 2] == SLASH {
            var trimmed := Trimmed(driveName);
            return Some(trimmed);
          }
        }
        return None;
      }
      driveName := driveName + [c];
      i := i + 1;
    }
    return None;
  }

  /** The loop that drops trailing spaces. */
  method Trimmed(s: seq<byte>) returns (t: seq<byte>)
    ensures t == TrimRight(s)
  {
    var len := |s|;
    assert s[..len] == s;
    while len > 0 && s[len - 1] == SPACE
      invariant 0 <= len <= |s| && TrimRight(s) == TrimRight(s[..len])
    {
      assert s[..len][..len - 1] == s[..len - 1];
      len := len - 1;
    }
    return s[..len];
  }

  /** `findPathAfterDrive`. */
  method FindPathAfterDrive(path: Path) returns (directory: Option<Path>)
    ensures directory == match Separator(path, 0)
      case None => None
      case Some(i) => Some(PathOf(NameOf(path[i + 3..])))
  {
    var start := 0;
    var found := false;
    var i := 0;
    ghost var name := NameOf(path);
    while i < PATH_SIZE && !found
      invariant 0 <= i <= |name| && (!found ==> Separator(path, 0) == Separator(path, i))
      invariant found ==> Separator(path, 0).Some? && start == Separator(path, 0).value + 3
      decreases PATH_SIZE - i, !found
    {
      hide NameOf;
      var c := path[i];
      if c == 0 {
        break;
      }
      if c == COLON {
        if i + 1 < PATH_SIZE && path[i + 1] == SLASH && i + 2 < PATH_SIZE && path[i + 2] == SLASH {
          start, found := i + 3, true;
        } else {
          return None;
        }
      } else {
        i := i + 1;
      }
    }
    if !found {
      return None;
    }
    var dir := CopyDirectory(path, start);
    return Some(dir);
  }

  /** Copying the bytes behind the separator, up to the NUL, into a zeroed path. */
  method CopyDirectory(path: Path, start: nat) returns (directory: Path)
    requires start <= PATH_SIZE
    ensures directory == PathOf(NameOf(path[start..]))
  {
    ghost var rest := NameOf(path[start..]);
    hide NameOf;
    var dir := new byte[PATH_SIZE](_ => 0);
    var i := start;
    var k := 0;
    while i < PATH_SIZE
      invariant k == i - start <= |rest| && dir[..] == rest[..k] + Zeros(PATH_SIZE - k)
    {
      var c := path[i];
      assert c == path[start..][k];
      dir[k] := c;
      if c == 0 {
        break;
      }
      k := k + 1;
      i := i + 1;
    }
    assert rest[..k] == rest;
    if k < PATH_SIZE {
      dir[k] := 0;
    }
    return dir[..];
  }

  /** A well-formed path is taken apart into its parts; both functions accept exactly the same paths. */
  lemma PathPartsReadBack(name: seq<byte>, rest: seq<byte>)
    requires COLON !in name && 0 !in name && 0 !in rest && |name| + 3 + |rest| < PATH_SIZE
    ensures var path := PathOf(name + [COLON, SLASH, SLASH] + rest);
      && Separator(path, 0) == Some(|name|) && path[..|name|] == name
      && PathOf(NameOf(path[|name| + 3..])) == PathOf(rest)
  {
    var text := name + [COLON, SLASH, SLASH] + rest;
    var path := PathOf(text);
    assert path[..|text|] == text && path[|text|] == 0;
    NameOfUnique(path, |text|);
    hide NameOf;
    SeparatorAt(path, 0, |name|);
    var tail := path[|name| + 3..];
    assert tail[..|rest|] == rest;
    NameOfUnique(tail, |rest|);
  }

  lemma {:induction false} SeparatorAt(path: Path, from: nat, i: nat)
    requires from <= i && i + 2 < |NameOf(path)| && COLON !in path[from..i]
    requires path[i] == COLON && path[i + 1] == SLASH && path[i + 2] == SLASH
    ensures Separator(path, from) == Some(i)
    decreases i - from
  {
    hide NameOf;
    if from < i {
      assert path[from] == path[from..i][0] && path[from + 1..i] == path[from..i][1..];
      SeparatorAt(path, from + 1, i);
    }
  }

  // ----- data -----

  /** The bytes that are not NUL. */
  function NonNul(data: seq<byte>): (clean: seq<byte>)
    ensures |clean| <= |data| && 0 !in clean
    ensures clean == data <==> 0 !in data
    ensures |clean| == |data| ==> clean == data
  {
    if data == [] then []
    else
      var rest := NonNul(data[..|data| - 1]);
      assert data == data[..|data| - 1] + [data[|data| - 1]];
      if data[|data| - 1] != 0 then rest + [data[|data| - 1]] else rest
  }

  /** The filter loop of `write`. */
  method CleanData(data: seq<byte>) returns (clean: seq<byte>)
    ensures clean == NonNul(data)
  {
    clean := [];
    var i := 0;
    while i < |data|
      invariant 0 <= i <= |data| && clean == NonNul(data[..i])
    {
      assert data[..i + 1][..i] == data[..i];
      if data[i] != 0 {
        clean := clean + [data[i]];
      }
      i := i + 1;
    }
    assert data[..i] == data;
  }

  /** The file system call behind `write`, of which at least the first `cut` block writes are carried out. */
  function WriteOp(path: Path, data: seq<byte>, cut: nat): Op { Op(path, NonNul(data), 0, cut, true, true) }

  /** Writing a new file through AVFS: it reads back exactly if there is data and no NUL in it. */
  lemma {:induction false} NewFileReadsBackIff(fs: seq<File>, total: nat, path: Path, data: seq<byte>, cut: nat)
    requires HasSegment(path) && |NameOf(path)| <= 254 && Find(fs, NameOf(path)).None?
    requires 1 + Footprint(fs) + 1 + BlocksFor(|NonNul(data)|) <= total
    requires cut >= BlocksFor(|NonNul(data)|) + 2
    ensures AbsRead(AbsStep(fs, total, WriteOp(path, data, cut)), path, 0, 0) == Ok(data)
       <==> data != [] && 0 !in data
  {
    hide NameOf, HasSegment, NonNul;
    var op := WriteOp(path, data, cut);
    if NonNul(data) == [] {
      assert AbsCreate(fs, total, op) == fs;
    } else {
      assert |AbsCreate(fs, total, op)| == |fs| + 1;
      CreateReadsBackIff(fs, total, op);
      assert Zeros(0) + NonNul(data) == NonNul(data);
    }
  }

  lemma {:induction false} NonNulAppend(a: seq<byte>, b: seq<byte>)
    ensures NonNul(a + b) == NonNul(a) + NonNul(b)
  {
    if b == [] {
      assert a + b == a;
    } else {
      assert (a + b)[..|a + b| - 1] == a + b[..|b| - 1];
      NonNulAppend(a, b[..|b| - 1]);
    }
  }

  lemma {:induction false} NonNulNone(b: seq<byte>)
    ensures NonNul(b) == [] <==> forall i :: 0 <= i < |b| ==> b[i] == 0
  {
    if b != [] {
      NonNulNone(b[..|b| - 1]);
      assert forall i :: 0 <= i < |b| - 1 ==> b[i] == b[..|b| - 1][i];
    }
  }

  /** The filtered data is a prefix of the data exactly if all NULs come last. */
  lemma NulsLast(data: seq<byte>)
    ensures NonNul(data) <= data <==> forall i :: |NonNul(data)| <= i < |data| ==> data[i] == 0
  {
    var n := |NonNul(data)|;
    var a, b := data[..n], data[n..];
    assert data == a + b;
    NonNulAppend(a, b);
    NonNulNone(b);
    assert NonNul(a) == a <==> 0 !in a;
    hide NonNul;
    if NonNul(data) <= data {
      assert NonNul(data) == a;
      assert NonNul(b) == [];
      forall i | n <= i < |data| ensures data[i] == 0 {
        assert data[i] == b[i - n];
      }
    }
    if forall i :: n <= i < |data| ==> data[i] == 0 {
      assert NonNul(b) == [];
      assert NonNul(data) == NonNul(a) == a;
    }
  }

  /**
  Writing over a file of the same name, whatever the lengths: nothing is truncated and nothing grows, so the
  data reads back exactly if it is as long as the old content and its NULs, all at the end, meet NULs there.
  */
  lemma OldFileReadsBackIff(blocks: seq<Block>, path: Path, data: seq<byte>, i: nat)
    requires Overwrites(blocks, path, NonNul(data), 0, i)
    ensures var after := Overwritten(blocks, path, NonNul(data), 0, i);
      var c := View(blocks)[i].content;
      && Used(after[0]) >= 0
      && (ReadFile(Healthy(after), after[0], path, 0, 0) == Ok(data)
          <==> |data| == |c| && forall x :: |NonNul(data)| <= x < |c| ==> data[x] == c[x] == 0)
  {
    OverwriteKeepsLength(blocks, path, NonNul(data), 0, i);
    OverwritesMeans(blocks, path, NonNul(data), 0, i);
    var c := View(blocks)[i].content;
    KeptTailIff(c, data);
    hide *;
  }

  lemma KeptTailIff(c: seq<byte>, data: seq<byte>)
    ensures Wanted(c, NonNul(data), 0)[..|c|] == data
       <==> |data| == |c| && forall x :: |NonNul(data)| <= x < |c| ==> data[x] == c[x] == 0
  {
    hide NonNul;
    var clean := NonNul(data);
    NulsLast(data);
    if |data| == |c| {
      var r := Wanted(c, clean, 0)[..|c|];
      assert r == clean + c[|clean|..];
      if r == data {
        assert clean <= data;
        assert forall x :: |clean| <= x < |c| ==> data[x] == r[x] == c[x];
      }
    }
  }
}
