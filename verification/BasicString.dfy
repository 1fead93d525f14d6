/**
The string class with its two representations: up to `capacity` characters in the object, longer texts in
a heap buffer it owns. Sources of `append` are pointers and may point into the string itself.
*/
module BasicString {
  import opened Bytes

  /** The allocator's record of the buffers that have been allocated and not yet freed. */
  class Ledger {
    ghost var live: set<array<byte>>

    constructor ()
      ensures live == {}
    {
      live := {};
    }

    /** `new char[n]`. */
    method New(n: nat) returns (b: array<byte>)
      modifies this
      ensures fresh(b) && b.Length == n && live == old(live) + {b}
    {
      b := new byte[n];
      live := live + {b};
    }

    /** `delete[]`: the buffer must be live, so no buffer is freed twice. */
    method Delete(b: array<byte>)
      requires b in live
      modifies this
      ensures live == old(live) - {b}
    {
      live := live - {b};
    }
  }

  /**
  Where the `i`-th character comes from when a copy loop's target starts `gap` characters behind its source in the
  same buffer: after `gap` characters it reads what it has just written. A `gap` of 0 stands for a target that is
  not behind the source.
  */
  function Origin(i: nat, gap: nat): (o: nat)
    ensures o <= i && (i < gap ==> o == i)
  {
    if gap == 0 || i < gap then i else Origin(i - gap, gap)
  }

  /** The `len` characters such a loop delivers, from `from` on. */
  function Delivered(source: seq<byte>, from: nat, len: nat, gap: nat): (d: seq<byte>)
    requires from + len <= |source|
    ensures |d| == len && forall i :: 0 <= i < len ==> d[i] == source[from + Origin(i, gap)]
  {
    seq(len, i requires 0 <= i < len => source[from + Origin(i, gap)])
  }

  /** They are the source exactly if what the loop overwrites of it repeats what comes before. */
  lemma DeliveredIff(source: seq<byte>, from: nat, len: nat, gap: nat)
    requires from + len <= |source|
    ensures Delivered(source, from, len, gap) == source[from..from + len] <==> Repeats(source[from..from + len], gap)
  {
    var d, s := Delivered(source, from, len, gap), source[from..from + len];
    if d == s {
      forall i | gap <= i < |s| && gap > 0 ensures s[i] == s[i - gap] {
        assert d[i] == d[i - gap];
      }
    }
    if Repeats(s, gap) {
      forall i | 0 <= i < len ensures d[i] == s[i] {
        RepeatsFrom(s, gap, i);
      }
    }
  }

  predicate Repeats(s: seq<byte>, gap: nat) { forall i :: 0 < gap <= i < |s| ==> s[i] == s[i - gap] }

  lemma {:induction false} RepeatsFrom(s: seq<byte>, gap: nat, i: nat)
    requires Repeats(s, gap) && i < |s|
    ensures s[i] == s[Origin(i, gap)]
  {
    if 0 < gap <= i {
      RepeatsFrom(s, gap, i - gap);
    }
  }

  /** A slice that ends before the target starts, or lies in another buffer, arrives as it was. */
  lemma DeliveredWhole(source: seq<byte>, from: nat, len: nat, gap: nat)
    requires from + len <= |source| && (gap == 0 || len <= gap)
    ensures Delivered(source, from, len, gap) == source[from..from + len]
  {
    DeliveredIff(source, from, len, gap);
  }

  /** A slice of a heap text with its terminator arrives exactly if it is the terminator alone or starts with a NUL. */
  lemma WithTerminatorIff(text: seq<byte>, from: nat)
    requires from <= |text|
    ensures var buffer, gap := text + [0], |text| - from;
      Delivered(buffer, from, gap + 1, gap) == buffer[from..] <==> from == |text| || text[from] == 0
  {
    var buffer, gap := text + [0], |text| - from;
    var s := buffer[from..from + gap + 1];
    assert s == buffer[from..] && s[gap] == 0;
    DeliveredIff(buffer, from, gap + 1, gap);
    hide Delivered;
    assert gap > 0 ==> s[0] == text[from];
    assert gap > 0 && Repeats(s, gap) ==> s[gap] == s[gap - gap];
  }

  lemma DeliveredNext(source: seq<byte>, from: nat, len: nat, gap: nat, i: nat)
    requires from + len <= |source| && i < len
    ensures var d := Delivered(source, from, len, gap);
      d[i] == if 0 < gap <= i then d[i - gap] else source[from + i]
  {}

  /** A character copy loop; source and target may be one buffer. */
  method CopyChars(src: array<byte>, from: nat, len: nat, dst: array<byte>, at: nat)
    requires from + len <= src.Length && at + len <= dst.Length
    modifies dst
    ensures var gap := if src == dst && from < at then at - from else 0;
      dst[..] == Splice(old(dst[..]), at, Delivered(old(src[..]), from, len, gap))
    ensures src != dst || from + len <= at ==> dst[..] == Splice(old(dst[..]), at, old(src[from..from + len]))
  {
    ghost var gap, source, before := if src == dst && from < at then at - from else 0, src[..], dst[..];
    ghost var d := Delivered(source, from, len, gap);
    hide Delivered, Origin, Splice, Repeats;
    var i := 0;
    while i < len
      invariant 0 <= i <= len
      invariant forall k :: 0 <= k < i ==> dst[at + k] == d[k]
      invariant forall k :: 0 <= k < dst.Length && !(at <= k < at + i) ==> dst[k] == before[k]
    {
      DeliveredNext(source, from, len, gap, i);
      if 0 < gap <= i {
        assert dst[at + (i - gap)] == d[i - gap];
      }
      dst[at + i] := src[from + i];
      i := i + 1;
    }
    SpliceIs(before, dst[..], at, d);
    if src != dst || from + len <= at {
      DeliveredWhole(source, from, len, gap);
    }
  }

  lemma SpliceIs(before: seq<byte>, after: seq<byte>, at: nat, d: seq<byte>)
    requires at + |d| <= |before| == |after| && forall k :: 0 <= k < |d| ==> after[at + k] == d[k]
    requires forall k :: 0 <= k < |before| && !(at <= k < at + |d|) ==> after[k] == before[k]
    ensures after == Splice(before, at, d)
  {
    forall k | 0 <= k < |before| ensures after[k] == Splice(before, at, d)[k] {
      if at <= k < at + |d| {
        assert after[at + (k - at)] == d[k - at];
      }
    }
  }

  class BasicString {
    const capacity: nat
    const ledger: Ledger
    const sso: array<byte>
    var heap: array<byte>
    var heapCapacity: nat
    var length: nat
    var isSso: bool

    ghost predicate Valid()
      reads this, sso, heap, ledger
    {
      && sso.Length == capacity + 1
      && (isSso ==> length <= capacity && sso[length] == 0)
      && (!isSso ==>
            && heap in ledger.live && heap != sso && heap.Length == heapCapacity + 1
            && length <= heapCapacity && heap[length] == 0)
    }

    /** The buffers this string has to free. */
    ghost function Owned(): set<array<byte>>
      reads this
    {
      if isSso then {} else {heap}
    }

    /** The buffer `c_str` points to. */
    function Buffer(): array<byte>
      reads this
    {
      if isSso then sso else heap
    }

    ghost function Contents(): seq<byte>
      requires Valid()
      reads this, sso, heap, ledger
    {
      Buffer()[..length]
    }

    constructor (capacity: nat, ledger: Ledger)
      ensures Valid() && Contents() == [] && Owned() == {}
      ensures this.capacity == capacity && this.ledger == ledger && fresh(sso)
    {
      this.capacity, this.ledger := capacity, ledger;
      sso := new byte[capacity + 1](_ => 0);
      heap := new byte[0];
      heapCapacity, length, isSso := 0, 0, true;
    }

    /** The source of an append: any characters, also of the buffer this string is in. */
    ghost predicate Source(src: array<byte>, from: nat, len: nat)
      reads this
    {
      from + len <= src.Length && (src == sso || src in Owned() ==> src == Buffer())
    }

    /** How far the copy's target is behind its source, where a slice of the buffer is copied without a detour. */
    ghost function Gap(src: array<byte>, from: nat, len: nat): nat
      reads this
    {
      if src == Buffer() && from < length && length + len < src.Length && !(isSso && len < 256)
      then length - from else 0
    }

    /**
    `append`, in all four combinations of the old and the new representation. The source arrives as it was,
    but for a slice of the own buffer that goes beyond the text: of that the loops in place read what they have
    just written.
    */
    method Append(src: array<byte>, from: nat, len: nat)
      requires Valid() && Source(src, from, len)
      modifies this, sso, Owned(), ledger
      ensures Valid()
      ensures Contents() == old(Contents()) + old(Delivered(src[..], from, len, Gap(src, from, len)))
      ensures src != old(Buffer()) || from + len <= old(length) ==>
        Contents() == old(Contents()) + old(src[from..from + len])
      ensures ledger.live == old(ledger.live) - old(Owned()) + Owned()
      ensures fresh(Owned() - old(Owned()))
      ensures isSso <==> old(isSso) && (len == 0 || old(length) + len <= capacity)
      ensures var (room, n) := (if old(isSso) then capacity else old(heapCapacity), old(length) + len);
        if len == 0 || n <= room then Buffer() == old(Buffer()) && heapCapacity == old(heapCapacity)
        else heapCapacity == if old(isSso) && 2 * n < 32 then 32 else 2 * n
    {
      ghost var gap := Gap(src, from, len);
      if src != Buffer() || from + len <= length {
        DeliveredWhole(src[..], from, len, gap);
      }
      hide Delivered;
      if len == 0 {
        return;
      }
      if isSso && length + len <= capacity {
        AppendInPlace(src, from, len);
      } else if !isSso && length + len <= heapCapacity {
        AppendInPlace(src, from, len);
      } else {
        DeliveredWhole(src[..], from, len, 0);
        var doubled := 2 * (length + len);
        Relocate(src, from, len, if isSso && doubled < 32 then 32 else doubled);
      }
    }

    /** The branches that stay in the current buffer. A short slice of the object's own buffer goes through a copy. */
    method AppendInPlace(src: array<byte>, from: nat, len: nat)
      requires Valid() && Source(src, from, len) && length + len < Buffer().Length
      modifies this`length, Buffer()
      ensures Valid()
      ensures Contents() == old(Contents()) + old(Delivered(src[..], from, len, Gap(src, from, len)))
    {
      ghost var text, added := Contents(), Delivered(src[..], from, len, Gap(src, from, len));
      hide Delivered, Gap;
      if isSso && src == sso && len < 256 {
        CopyThrough(src, from, len);
      } else {
        CopyStraight(src, from, len);
      }
      Terminate(len, text + added);
    }

    method CopyThrough(src: array<byte>, from: nat, len: nat)
      requires isSso && src == sso && len < 256 && from + len <= src.Length && length + len < sso.Length
      modifies sso
      ensures sso[..] == Splice(old(sso[..]), length, old(Delivered(src[..], from, len, Gap(src, from, len))))
    {
      DeliveredWhole(src[..], from, len, 0);
      hide Delivered, Splice;
      ghost var added := src[from..from + len];
      var local := new byte[256];
      CopyChars(src, from, len, local, 0);
      assert local[0..len] == added;
      CopyChars(local, 0, len, sso, length);
    }

    method CopyStraight(src: array<byte>, from: nat, len: nat)
      requires !(isSso && src == sso && len < 256) && from + len <= src.Length && length + len < Buffer().Length
      modifies Buffer()
      ensures Buffer()[..]
           == Splice(old(Buffer()[..]), length, old(Delivered(src[..], from, len, Gap(src, from, len))))
    {
      hide Delivered, Splice;
      CopyChars(src, from, len, Buffer(), length);
    }

    /** The end of those branches: the new length and the terminator. */
    method Terminate(len: nat, ghost text: seq<byte>)
      requires sso.Length == capacity + 1
      requires !isSso ==> heap in ledger.live && heap != sso && heap.Length == heapCapacity + 1
      requires length + len < Buffer().Length && Buffer()[..length + len] == text
      modifies this`length, Buffer()
      ensures Valid() && Contents() == text
    {
      length := length + len;
      Buffer()[length] := 0;
      assert Buffer()[..length] == text;
    }

    /** The branches that move the text into a new heap buffer; the source is read before the old one is freed. */
    method Relocate(src: array<byte>, from: nat, len: nat, newCapacity: nat)
      requires Valid() && Source(src, from, len) && length + len <= newCapacity
      modifies this, ledger
      ensures Valid() && Contents() == old(Contents()) + old(src[from..from + len])
      ensures !isSso && heapCapacity == newCapacity && fresh(heap)
      ensures ledger.live == old(ledger.live) - old(Owned()) + {heap}
    {
      ghost var text, added := Contents(), src[from..from + len];
      var buffer := ledger.New(newCapacity + 1);
      Concatenate(src, from, len, buffer);
      if !isSso {
        ledger.Delete(heap);
      }
      length := length + len;
      buffer[length] := 0;
      heap, heapCapacity, isSso := buffer, newCapacity, false;
      assert buffer[..length] == text + added;
    }

    /** Copying the text and the source into a larger buffer. */
    method Concatenate(src: array<byte>, from: nat, len: nat, buffer: array<byte>)
      requires length <= Buffer().Length && from + len <= src.Length && length + len <= buffer.Length
      requires buffer != Buffer() && buffer != src
      modifies buffer
      ensures buffer[..length + len] == Buffer()[..length] + src[from..from + len]
    {
      ghost var text, added := Buffer()[..length], src[from..from + len];
      hide Delivered;
      CopyChars(Buffer(), 0, length, buffer, 0);
      assert buffer[..length] == text && src[from..from + len] == added;
      CopyChars(src, from, len, buffer, length);
      assert buffer[..length + len] == text + added;
    }

    /** `clear`. */
    method Clear()
      requires Valid()
      modifies this, sso, ledger
      ensures Valid() && Contents() == [] && Owned() == {}
      ensures ledger.live == old(ledger.live) - old(Owned())
    {
      if !isSso {
        ledger.Delete(heap);
      }
      isSso, length := true, 0;
      sso[0] := 0;
    }

    /** Two strings that share nothing but the allocator. */
    ghost predicate Apart(other: BasicString)
      reads this, other
    {
      && this != other && ledger == other.ledger && sso != other.sso && Owned() !! other.Owned()
      && sso !in other.Owned() && other.sso !in Owned()
    }

    /** Copy assignment. */
    method Assign(other: BasicString)
      requires Valid() && other.Valid() && (this == other || Apart(other))
      modifies this, sso, Owned(), ledger
      ensures Valid() && other.Valid() && (this == other || Apart(other))
      ensures Contents() == old(other.Contents()) == other.Contents()
      ensures ledger.live == old(ledger.live) - old(Owned()) + Owned()
      ensures fresh(Owned() - old(Owned()))
    {
      if this != other {
        hide Delivered, Gap;
        ghost var text := other.Contents();
        Clear();
        assert other.Valid() && other.Contents() == text;
        var source := other.Buffer();
        assert source[0..other.length] == text;
        assert [] + text == text;
        Append(source, 0, other.length);
        assert fresh(Owned());
        assert other.Buffer() == source && other.Contents() == text;
      }
    }

    /** Move assignment: the heap buffer changes hands, or the short text is copied. */
    method MoveFrom(other: BasicString)
      requires Valid() && other.Valid() && capacity == other.capacity && (this == other || Apart(other))
      modifies this, sso, other, other.sso, ledger
      ensures Valid() && other.Valid() && (this == other || Apart(other))
      ensures Contents() == old(other.Contents())
      ensures this != other ==> other.Contents() == [] && other.Owned() == {} && Owned() == old(other.Owned())
      ensures ledger.live == old(ledger.live) - (if this == other then {} else old(Owned()))
      ensures this == other ==> Owned() == old(Owned())
    {
      if this == other {
        return;
      }
      Clear();
      TakeOver(other);
    }

    /** Copying the text and its terminator between the two objects. */
    method CopyShort(src: array<byte>, len: nat)
      requires src != sso && 0 < len <= src.Length && len <= sso.Length
      modifies sso
      ensures sso[..len] == src[..len] && sso[..len - 1] == src[..len - 1] && sso[len - 1] == src[len - 1]
    {
      hide Delivered;
      CopyChars(src, 0, len, sso, 0);
      assert forall k :: 0 <= k < len ==> sso[k] == src[0..len][k];
    }

    /** Taking over the other string's representation, when nothing is owned. */
    method TakeOver(other: BasicString)
      requires Valid() && other.Valid() && capacity == other.capacity && Apart(other) && Owned() == {}
      modifies this, sso, other, other.sso
      ensures Valid() && other.Valid() && Apart(other)
      ensures Contents() == old(other.Contents()) && other.Contents() == []
      ensures other.Owned() == {} && Owned() == old(other.Owned())
    {
      if other.isSso {
        CopyShort(other.sso, other.length + 1);
        assert sso[other.length] == other.sso[other.length];
      } else {
        heap, heapCapacity := other.heap, other.heapCapacity;
      }
      isSso, length := other.isSso, other.length;
      other.isSso, other.length := true, 0;
      other.sso[0] := 0;
    }
  }
}
