/** Cutting a path into segments, and comparing it with a header's path field. */
module AbtrPaths {
  import opened Bytes
  import opened AbtrFormat
  import opened AbtrLayout
  import opened AbtrPlan

  /** The maximal slash-free runs of a name. */
  function Segments(s: seq<byte>): (segs: seq<seq<byte>>)
    ensures forall seg :: seg in segs ==> seg != [] && SLASH !in seg
    ensures segs == [] <==> forall i :: 0 <= i < |s| ==> s[i] == SLASH
    decreases |s|
  {
    if s == [] then []
    else if s[0] == SLASH then
      assert forall i :: 0 < i < |s| ==> s[i] == s[1..][i - 1];
      Segments(s[1..])
    else
      var n := RunLength(s);
      [s[..n]] + Segments(s[n..])
  }

  function RunLength(s: seq<byte>): (n: nat)
    ensures n <= |s| && SLASH !in s[..n] && (n < |s| ==> s[n] == SLASH)
    ensures s != [] && s[0] != SLASH ==> n > 0
  {
    if s == [] || s[0] == SLASH then 0 else
      var n := RunLength(s[1..]);
      assert s[..n + 1] == [s[0]] + s[1..][..n];
      n + 1
  }

  lemma RunLengthUnique(s: seq<byte>, n: nat)
    requires n <= |s| && SLASH !in s[..n] && (n < |s| ==> s[n] == SLASH)
    ensures RunLength(s) == n
  {
  }

  lemma SegmentsAtSlash(obj: seq<byte>, rest: seq<byte>)
    requires SLASH !in obj
    ensures Segments(obj + [SLASH] + rest) == (if obj == [] then [] else [obj]) + Segments(rest)
  {
    var s := obj + [SLASH] + rest;
    var tail := [SLASH] + rest;
    assert tail[1..] == rest;
    if obj == [] {
      assert s == tail;
    } else {
      assert s[..|obj|] == obj && s[|obj|..] == tail;
      RunLengthUnique(s, |obj|);
    }
  }

  /** What the pending bytes `obj` and the rest of the name contribute, one byte further on. */
  lemma SegmentsStep(obj: seq<byte>, name: seq<byte>, i: nat)
    requires SLASH !in obj && i < |name|
    ensures Segments(obj + name[i..]) ==
      if name[i] != SLASH then Segments(obj + [name[i]] + name[i + 1..])
      else (if obj == [] then [] else [obj]) + Segments([] + name[i + 1..])
  {
    hide Segments;
    assert obj + name[i..] == obj + [name[i]] + name[i + 1..];
    assert [] + name[i + 1..] == name[i + 1..];
    if name[i] == SLASH {
      SegmentsAtSlash(obj, name[i + 1..]);
    }
  }

  lemma SegmentsAtEnd(obj: seq<byte>)
    requires SLASH !in obj
    ensures Segments(obj) == if obj == [] then [] else [obj]
  {
    if obj != [] {
      RunLengthUnique(obj, |obj|);
      assert obj[..|obj|] == obj && obj[|obj|..] == [];
    }
  }

  /** `chopPath`. */
  method ChopPath(path: Path) returns (segments: seq<seq<byte>>)
    ensures segments == Segments(NameOf(path))
    ensures segments == [] <==> !HasSegment(path)
  {
    hide Segments;
    ghost var name := NameOf(path);
    hide NameOf;
    segments := [];
    var obj: seq<byte> := [];
    var i := 0;
    assert obj + name[0..] == name;
    while i < PATH_SIZE && path[i] != 0
      invariant 0 <= i <= |name| && SLASH !in obj
      invariant Segments(name) == segments + Segments(obj + name[i..])
    {
      SegmentsStep(obj, name, i);
      if path[i] == SLASH {
        if obj != [] {
          segments := segments + [obj];
          obj := [];
        }
      } else {
        obj := obj + [path[i]];
      }
      i := i + 1;
    }
    assert obj + name[i..] == obj;
    SegmentsAtEnd(obj);
    if obj != [] {
      segments := segments + [obj];
    }
  }

  /** `is_path_equal`. */
  method IsPathEqual(path: Path, field: seq<byte>) returns (equal: bool)
    requires |field| == PATH_FIELD
    ensures equal == PathEqual(path, field)
  {
    var i := 0;
    while i < 255
      invariant 0 <= i <= 255
      invariant path[..i] == field[..i] && 0 !in path[..i]
    {
      if path[i] != field[i] {
        NameOfPrefix(path, i);
        NameOfPrefix(field, i);
        return false;
      }
      if path[i] == 0 {
        NameOfUnique(path, i);
        NameOfUnique(field, i);
        return true;
      }
      i := i + 1;
    }
    NameOfPrefix(path, 255);
    return false;
  }

  /** A NUL-free prefix belongs to the name. */
  lemma NameOfPrefix(s: seq<byte>, i: nat)
    requires i <= |s| && 0 !in s[..i]
    ensures |NameOf(s)| >= i && NameOf(s)[..i] == s[..i]
    ensures i < |s| && s[i] == 0 ==> |NameOf(s)| == i
    ensures i < |s| && s[i] != 0 ==> |NameOf(s)| > i && NameOf(s)[i] == s[i]
  {
  }
}
