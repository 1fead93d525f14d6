/** The allocator itself: headers inside the buffer, a doubly linked free list through them. */
module KernelHeap {
  import opened Bytes
  import opened HeapModel

  /** An address is an offset into the buffer. */
  datatype Ptr = Null | At(addr: nat)

  datatype BlockHeader = BlockHeader(size: nat, isFree: bool, next: Ptr, prev: Ptr)

  /** What has been written as a header, by address; addresses that are no longer blocks keep stale values. */
  type Memory = map<nat, BlockHeader>

  function Link(free: seq<nat>, i: int): Ptr { if 0 <= i < |free| then At(free[i]) else Null }

  ghost predicate LinkedAt(mem: Memory, free: seq<nat>, i: nat)
    requires i < |free|
  {
    && free[i] in mem
    && mem[free[i]].next == Link(free, i + 1)
    && mem[free[i]].prev == Link(free, i - 1)
  }

  /** The headers at the listed addresses are linked in that order. */
  ghost predicate Linked(mem: Memory, free: seq<nat>, head: Ptr)
  {
    head == Link(free, 0) && forall i {:trigger LinkedAt(mem, free, i)} :: 0 <= i < |free| ==> LinkedAt(mem, free, i)
  }

  ghost predicate StoredAt(mem: Memory, s: State, a: nat)
    requires a in s.sizes
  {
    a in mem && mem[a].size == s.sizes[a] && (mem[a].isFree <==> a in s.free)
  }

  /** The header of every block holds its size and whether it is free. */
  ghost predicate Stored(mem: Memory, s: State)
  {
    forall a {:trigger StoredAt(mem, s, a)} :: a in s.sizes ==> StoredAt(mem, s, a)
  }

  /** Only link fields of headers differ. */
  ghost predicate SameBlocks(m: Memory, mem: Memory)
  {
    m.Keys == mem.Keys && forall a :: a in mem ==> m[a].size == mem[a].size && m[a].isFree == mem[a].isFree
  }

  lemma LinksAround(mem: Memory, free: seq<nat>, head: Ptr, i: nat)
    requires Linked(mem, free, head) && Distinct(free) && i < |free|
    ensures free[i] in mem
    ensures mem[free[i]].next == Link(free, i + 1) && mem[free[i]].prev == Link(free, i - 1)
    ensures i > 0 ==> free[i - 1] in mem && free[i - 1] != free[i]
    ensures i + 1 < |free| ==> free[i + 1] in mem && free[i + 1] != free[i]
    ensures 0 < i && i + 1 < |free| ==> free[i - 1] != free[i + 1]
  {
    assert LinkedAt(mem, free, i);
    assert i > 0 ==> LinkedAt(mem, free, i - 1);
    assert i + 1 < |free| ==> LinkedAt(mem, free, i + 1);
  }

  class Heap {
    var mem: Memory
    var freeHead: Ptr
    var initialized: bool
    ghost var model: State

    constructor ()
      ensures Valid() && model == INITIAL && !initialized
    {
      mem, freeHead, initialized, model := map[], Null, false, INITIAL;
      new;
      InitialHolds();
    }

    ghost predicate Valid()
      reads this
    {
      && WellFormed(model)
      && (!initialized ==> model == INITIAL)
      && (initialized ==> Stored(mem, model) && Linked(mem, model.free, freeHead))
    }

    /** `init_heap`. */
    method InitHeap()
      requires Valid()
      modifies this
      ensures Valid() && initialized && model == old(model)
    {
      if initialized {
        return;
      }
      mem := mem[0 := BlockHeader(HEAP_SIZE - HEADER, true, Null, Null)];
      freeHead := At(0);
      initialized := true;
      assert model.free[0] == 0;
      assert StoredAt(mem, model, 0) && LinkedAt(mem, model.free, 0);
    }

    /** `remove_from_free_list` for the `i`-th listed block. */
    method RemoveFromFreeList(a: nat, ghost free: seq<nat>, ghost i: nat)
      requires Linked(mem, free, freeHead) && Distinct(free) && i < |free| && free[i] == a
      modifies this`mem, this`freeHead
      ensures Linked(mem, RemoveAt(free, i), freeHead) && SameBlocks(mem, old(mem))
      ensures a in mem && mem[a].next == mem[a].prev == Null
    {
      LinksAround(mem, free, freeHead, i);
      ghost var mem0 := mem;
      if mem[a].prev != Null {
        var p := mem[a].prev.addr;
        mem := mem[p := mem[p].(next := mem[a].next)];
      } else {
        freeHead := mem[a].next;
      }
      if mem[a].next != Null {
        var n := mem[a].next.addr;
        mem := mem[n := mem[n].(prev := mem[a].prev)];
      }
      mem := mem[a := mem[a].(next := Null, prev := Null)];
      ghost var rest := RemoveAt(free, i);
      forall k | 0 <= k < |rest| ensures LinkedAt(mem, rest, k) {
        var j := if k < i then k else k + 1;
        assert LinkedAt(mem0, free, j) && free[j] != a;
        assert j != i - 1 && i > 0 ==> free[j] != free[i - 1];
        assert j != i + 1 && i + 1 < |free| ==> free[j] != free[i + 1];
      }
    }

    /** `add_to_free_list`. */
    method AddToFreeList(a: nat, ghost free: seq<nat>)
      requires Linked(mem, free, freeHead) && a in mem && a !in free
      modifies this`mem, this`freeHead
      ensures Linked(mem, [a] + free, freeHead)
      ensures mem.Keys == old(mem).Keys
      ensures forall x :: x in mem ==>
        mem[x].size == old(mem)[x].size && (mem[x].isFree <==> x == a || old(mem)[x].isFree)
    {
      ghost var mem0 := mem;
      assert |free| > 0 ==> LinkedAt(mem, free, 0) && free[0] in free;
      mem := mem[a := mem[a].(isFree := true, next := freeHead, prev := Null)];
      if freeHead != Null {
        var h := freeHead.addr;
        mem := mem[h := mem[h].(prev := At(a))];
      }
      freeHead := At(a);
      ghost var list := [a] + free;
      forall k | 0 <= k < |list| ensures LinkedAt(mem, list, k) {
        assert k > 0 ==> LinkedAt(mem0, free, k - 1) && free[k - 1] in free;
        assert k == 1 || k == 0 || mem0[free[k - 1]].prev == At(free[k - 2]);
      }
    }

    /** `is_in_free_list`. */
    method IsInFreeList(target: nat, ghost free: seq<nat>) returns (found: bool)
      requires Linked(mem, free, freeHead)
      ensures found <==> target in free
    {
      var curr := freeHead;
      ghost var k := 0;
      while curr != Null
        invariant 0 <= k <= |free| && curr == Link(free, k) && target !in free[..k]
        decreases |free| - k
      {
        assert LinkedAt(mem, free, k);
        if curr.addr == target {
          return true;
        }
        curr := mem[curr.addr].next;
        k := k + 1;
      }
      assert free[..k] == free;
      return false;
    }

    /** `coalesce`. */
    method CoalesceBlock(a: nat, ghost s: State)
      requires WellFormed(s) && Stored(mem, s) && Linked(mem, s.free, freeHead) && a in s.sizes
      modifies this`mem, this`freeHead
      ensures Stored(mem, Coalesce(s, a)) && Linked(mem, Coalesce(s, a).free, freeHead)
      ensures mem.Keys == old(mem).Keys && forall x :: x in mem ==> mem[x].isFree == old(mem)[x].isFree
    {
      assert StoredAt(mem, s, a) && Sound(s, a);
      var next := a + HEADER + mem[a].size;
      ghost var i := Position(s.free, next);
      assert next in s.sizes ==> StoredAt(mem, s, next) && Sound(s, next);
      if next + HEADER <= HEAP_SIZE {
        var listed := IsInFreeList(next, s.free);
        if mem[next].isFree && listed {
          ghost var mem0 := mem;
          RemoveFromFreeList(next, s.free, i.value);
          ghost var mem1 := mem;
          mem := mem[a := mem[a].(size := mem[a].size + HEADER + mem[next].size)];
          LinksOnly(mem1, mem, RemoveAt(s.free, i.value), freeHead);
          MergedStored(mem0, mem, s, a);
        }
      }
    }

    /** What the header of the `k`-th free block holds. */
    lemma FreeBlockAt(k: nat)
      requires Valid() && initialized && k <= |model.free|
      ensures k == 0 ==> freeHead == Link(model.free, 0)
      ensures k < |model.free| ==>
        var a := model.free[k];
        && a in mem && a in model.sizes && mem[a].isFree
        && mem[a].size == model.sizes[a] && mem[a].next == Link(model.free, k + 1)
    {
      if k < |model.free| {
        assert LinkedAt(mem, model.free, k) && StoredAt(mem, model, model.free[k]);
      }
    }

    /** `allocate_memory`. */
    method AllocateMemory(size: nat) returns (p: Ptr)
      requires Valid() && size < U64
      modifies this
      ensures Valid() && initialized
      ensures model == Allocate(old(model), size).0
      ensures p == match Allocate(old(model), size).1 case None => Null case Some(a) => At(a)
    {
      if !initialized {
        InitHeap();
      }
      var n := AlignUp(size);
      if n < 1 {
        n := 1;
      }
      assert n == Rounded(size);
      var current;
      ghost var k;
      current, k := FindFit(n);
      if current == Null {
        return Null;
      }
      TakeBlock(current.addr, n, k);
      return At(current.addr + HEADER);
    }

    /** The walk along the free list to the first block of at least `n` bytes, the `k`-th of the list. */
    method FindFit(n: nat) returns (current: Ptr, ghost k: nat)
      requires Valid() && initialized
      ensures current == match FirstFit(model, n, 0) case None => Null case Some(i) => At(model.free[i])
      ensures current != Null ==> FirstFit(model, n, 0) == Some(k)
    {
      hide Tiles, Distinct, Stored, Linked;
      FreeBlockAt(0);
      current := freeHead;
      k := 0;
      while current != Null
        invariant 0 <= k <= |model.free| && current == Link(model.free, k)
        invariant FirstFit(model, n, 0) == FirstFit(model, n, k)
        decreases |model.free| - k
      {
        FreeBlockAt(k);
        if mem[current.addr].isFree && mem[current.addr].size >= n {
          return;
        }
        current := mem[current.addr].next;
        k := k + 1;
      }
    }

    /** Splitting the block that fits, if it is worth it, and taking it off the list. */
    method TakeBlock(a: nat, n: nat, ghost i: nat)
      requires Valid() && initialized && n >= 1
      requires i < |model.free| && model.free[i] == a && model.sizes[a] >= n
      modifies this
      ensures Valid() && initialized && model == Take(old(model), i, n)
    {
      ghost var s, t := model, Take(model, i, n);
      ghost var mem0 := mem;
      TakeKeeps(s, i, n);
      assert LinkedAt(mem, s.free, i) && StoredAt(mem, s, a);
      ghost var free: seq<nat>, j: nat := s.free, i;
      if mem[a].size - n > HEADER + ALIGN {
        SplitBlock(a, n);
        free, j := [a + HEADER + n] + s.free, i + 1;
        RestListed(s, a, n);
        assert RemoveAt(free, j) == t.free;
      }
      RemoveAtMembers(free, j, a);
      SharedKeys(s, mem0);
      hide Tiles, Distinct, Linked, Stored, Take;
      UnlistBlock(a, free, j);
      TakenStored(mem0, mem, s, i, n);
      model := t;
    }

    /** Taking a block off the list and marking it used. */
    method UnlistBlock(a: nat, ghost free: seq<nat>, ghost i: nat)
      requires Linked(mem, free, freeHead) && Distinct(free) && i < |free| && free[i] == a
      modifies this`mem, this`freeHead
      ensures Linked(mem, RemoveAt(free, i), freeHead) && mem.Keys == old(mem).Keys
      ensures a in mem && !mem[a].isFree && mem[a].size == old(mem)[a].size
      ensures forall x :: x in mem && x != a ==>
        mem[x].size == old(mem)[x].size && mem[x].isFree == old(mem)[x].isFree
    {
      LinksAround(mem, free, freeHead, i);
      RemoveFromFreeList(a, free, i);
      ghost var mem1 := mem;
      mem := mem[a := mem[a].(isFree := false)];
      LinksOnly(mem1, mem, RemoveAt(free, i), freeHead);
    }

    /** The split: a new header behind the first `n` payload bytes, put at the front of the free list. */
    method SplitBlock(a: nat, n: nat)
      requires WellFormed(model) && Stored(mem, model) && Linked(mem, model.free, freeHead)
      requires a in model.free && Splits(model.sizes[a], n)
      modifies this`mem, this`freeHead
      ensures Linked(mem, [a + HEADER + n] + model.free, freeHead)
      ensures mem.Keys == old(mem).Keys + {a + HEADER + n}
      ensures forall x :: x in mem && x != a + HEADER + n ==>
        mem[x].isFree == old(mem)[x].isFree && mem[x].size == if x == a then n else old(mem)[x].size
      ensures var rest := a + HEADER + n;
        mem[rest].isFree && mem[rest].size == model.sizes[a] - n - HEADER
    {
      RestListed(model, a, n);
      assert StoredAt(mem, model, a);
      hide Tiles, WellFormed;
      ghost var mem0 := mem;
      var rest := a + HEADER + n;
      var remaining := mem[a].size - n;
      mem := mem[rest := BlockHeader(remaining - HEADER, false, Null, Null)];
      mem := mem[a := mem[a].(size := n)];
      LinksOnly(mem0, mem, model.free, freeHead);
      AddToFreeList(rest, model.free);
    }

    /** There is a block at `a`, or one that is gone has left a header there that still says it is free. */
    ghost predicate MayFree(a: nat)
      reads this
    {
      a in model.sizes || (a in mem && mem[a].isFree)
    }

    /**
    `free_memory`. The pointer is null or the payload of a block, which may already be free; or of one that has
    been merged into its predecessor, as long as nobody has overwritten the header it left behind.
    */
    method FreeMemory(p: Ptr)
      requires Valid()
      requires p != Null ==> initialized && p.addr >= HEADER && MayFree(p.addr - HEADER)
      modifies this
      ensures Valid() && initialized == old(initialized)
      ensures model == if p == Null || p.addr - HEADER !in old(model).sizes then old(model)
                       else Release(old(model), p.addr - HEADER)
      ensures mem.Keys == old(mem).Keys
      ensures forall x :: x in mem ==>
        (mem[x].isFree <==> old(mem)[x].isFree || (p != Null && x == p.addr - HEADER))
    {
      if p == Null {
        return;
      }
      var a := p.addr - HEADER;
      assert a in model.sizes ==> StoredAt(mem, model, a);
      if mem[a].isFree {
        return;
      }
      ReleaseKeeps(model, a);
      ghost var s := State(model.sizes, [a] + model.free);
      ghost var mem0 := mem;
      AddToFreeList(a, model.free);
      FreeListIrrelevant(model, s);
      ListedStored(mem0, mem, model, a);
      CoalesceBlock(a, s);
      model := Coalesce(s, a);
    }

    lemma Swallow(a: nat, b: nat)
      requires Valid() && initialized && a in model.sizes && b in model.sizes && model.End(a) == b
      requires a !in model.free && b !in model.free
      ensures WellFormed(model) && b in mem && MayFree(a) && MayFree(b)
      ensures forall i :: 0 <= i < |model.free| ==> model.free[i] in model.sizes
      ensures var t := Release(model, b);
        WellFormed(t) && a in t.sizes && b !in Release(t, a).sizes
    {
      SharedKeys(model, mem);
      SwallowedBy(model, a, b);
    }

    /** Freeing a block, then the one before it, which swallows it, and then the first one again. */
    method FreeSwallowed(p: nat, q: nat)
      requires Valid() && initialized && p >= HEADER && q >= HEADER
      requires p - HEADER in model.sizes && q - HEADER in model.sizes && model.End(p - HEADER) == q - HEADER
      requires p - HEADER !in model.free && q - HEADER !in model.free
      modifies this
      ensures Valid() && q - HEADER !in model.sizes
      ensures var (a, b) := (p - HEADER, q - HEADER);
        b in old(model).sizes && WellFormed(Release(old(model), b)) && a in Release(old(model), b).sizes
        && model == Release(Release(old(model), b), a)
    {
      hide *;
      Swallow(p - HEADER, q - HEADER);
      FreeMemory(At(q));
      FreeMemory(At(p));
      FreeMemory(At(q));
    }

    /** A client writing its payload: whatever it stores there, stale headers included, the heap is unaffected. */
    method WritePayload(at: nat, bytes: BlockHeader)
      requires Valid() && initialized
      requires exists a :: a in model.sizes && a !in model.free && a + HEADER <= at && at + HEADER <= model.End(a)
      modifies this`mem
      ensures Valid() && mem == old(mem)[at := bytes]
    {
      ghost var a :| a in model.sizes && a !in model.free && a + HEADER <= at && at + HEADER <= model.End(a);
      forall b | b in model.sizes ensures b != at {
        assert b != a ==> Apart(model, a, b) && Sound(model, b);
      }
      ghost var mem0 := mem;
      mem := mem[at := bytes];
      forall b | b in model.sizes ensures StoredAt(mem, model, b) {
        assert StoredAt(mem0, model, b);
      }
      LinksOnly(mem0, mem, model.free, freeHead);
    }
  }

  lemma SwallowedBy(s: State, a: nat, b: nat)
    requires WellFormed(s) && a in s.sizes && b in s.sizes && s.End(a) == b && a !in s.free && b !in s.free
    ensures var t := Release(s, b);
      WellFormed(t) && a in t.sizes && b !in Release(t, a).sizes
  {
    var u := State(s.sizes, [b] + s.free);
    ReleaseKeeps(s, b);
    FreeListIrrelevant(s, u);
    CoalesceMembers(u, b, a);
    CoalesceMembers(u, b, b);
    var t := Release(s, b);
    var v := State(t.sizes, [a] + t.free);
    assert b in u.free by { assert u.free[0] == b; }
    assert Sound(s, b) && Sound(s, a);
    FreeListIrrelevant(t, v);
    hide Coalesce, Position, Tiles;
    assert b in v.free by { InTail(a, t.free, b); }
    CoalesceMembers(v, a, b);
  }

  /** The list lives in the link fields of its members. */
  lemma LinksOnly(mem: Memory, m: Memory, free: seq<nat>, head: Ptr)
    requires Linked(mem, free, head)
    requires forall a :: a in mem && a in free ==> a in m && m[a].next == mem[a].next && m[a].prev == mem[a].prev
    ensures Linked(m, free, head)
  {
    forall i | 0 <= i < |free| ensures LinkedAt(m, free, i) {
      assert LinkedAt(mem, free, i) && free[i] in free;
    }
  }

  lemma MergedStored(mem0: Memory, mem: Memory, s: State, a: nat)
    requires WellFormed(s) && Stored(mem0, s) && a in s.sizes && Position(s.free, s.End(a)).Some?
    requires mem.Keys == mem0.Keys && a in mem && mem[a].size == s.sizes[a] + HEADER + s.sizes[s.End(a)]
    requires forall x :: x in mem ==> mem[x].isFree == mem0[x].isFree && (x != a ==> mem[x].size == mem0[x].size)
    ensures Stored(mem, Coalesce(s, a))
  {
    hide Tiles;
    var t := Coalesce(s, a);
    forall x | x in t.sizes ensures StoredAt(mem, t, x) {
      CoalesceMembers(s, a, x);
      assert StoredAt(mem0, s, x);
    }
  }

  lemma RestListed(s: State, a: nat, n: nat)
    requires WellFormed(s) && a in s.sizes && Splits(s.sizes[a], n)
    ensures a + HEADER + n !in s.free && Distinct([a + HEADER + n] + s.free)
  {
    RestIsNew(s, a, n);
  }

  lemma SharedKeys(s: State, mem: Memory)
    requires Stored(mem, s)
    ensures forall x :: x in s.sizes ==> x in mem
  {
    forall x | x in s.sizes ensures x in mem {
      assert StoredAt(mem, s, x);
    }
  }

  lemma ListedStored(mem0: Memory, mem: Memory, s: State, a: nat)
    requires Stored(mem0, s) && a in s.sizes && mem.Keys == mem0.Keys
    requires forall x :: x in mem ==>
      mem[x].size == mem0[x].size && (mem[x].isFree <==> x == a || mem0[x].isFree)
    ensures Stored(mem, State(s.sizes, [a] + s.free))
  {
    var t := State(s.sizes, [a] + s.free);
    forall x | x in t.sizes ensures StoredAt(mem, t, x) {
      assert StoredAt(mem0, s, x);
    }
  }

  lemma TakenStored(mem0: Memory, mem: Memory, s: State, i: nat, n: nat)
    requires WellFormed(s) && Stored(mem0, s) && i < |s.free| && s.sizes[s.free[i]] >= n >= 1
    requires var a: nat := s.free[i];
      var rest: nat := a + HEADER + n;
      var split := Splits(s.sizes[a], n);
      && a in mem && mem[a].size == (if split then n else s.sizes[a]) && !mem[a].isFree
      && (split ==> rest in mem && mem[rest].isFree && mem[rest].size == s.sizes[a] - n - HEADER)
      && forall x :: x in s.sizes && x != a && !(split && x == rest) ==>
           x in mem && x in mem0 && mem[x].size == mem0[x].size && mem[x].isFree == mem0[x].isFree
    ensures Stored(mem, Take(s, i, n))
  {
    var a: nat, t := s.free[i], Take(s, i, n);
    if Splits(s.sizes[a], n) {
      RestIsNew(s, a, n);
    }
    forall x | x in t.sizes ensures StoredAt(mem, t, x) {
      RemoveAtMembers(s.free, i, x);
      assert x in s.sizes ==> StoredAt(mem0, s, x);
    }
  }
}
