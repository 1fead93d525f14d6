/**
The kernel heap as a map from block addresses to payload sizes and the order of its free list. The class
of module KernelHeap is proved to follow these functions; the theorems here are about every run of them.
*/
module HeapModel {
  import opened Bytes

  const HEAP_SIZE := 16 * 1024 * 1024
  const HEADER := 32
  const ALIGN := 16

  datatype State = State(sizes: map<nat, nat>, free: seq<nat>) {
    /** The first byte behind the block at `a`. */
    function End(a: nat): nat
      requires a in sizes
    {
      a + HEADER + sizes[a]
    }
  }

  // ----- well-formed heaps -----

  /** The block at `a` is followed by another block or by the end of the buffer. */
  ghost predicate Sound(s: State, a: nat)
    requires a in s.sizes
  {
    s.sizes[a] >= 1 && s.End(a) <= HEAP_SIZE && (s.End(a) == HEAP_SIZE || s.End(a) in s.sizes)
  }

  ghost predicate Apart(s: State, a: nat, b: nat)
    requires a in s.sizes && b in s.sizes
  {
    s.End(a) <= b || s.End(b) <= a
  }

  /** Headers and payloads lie one behind the other from byte 0 to the end of the buffer. */
  ghost predicate Tiles(s: State)
  {
    && 0 in s.sizes
    && (forall a {:trigger Sound(s, a)} :: a in s.sizes ==> Sound(s, a))
    && (forall a, b {:trigger Apart(s, a, b)} :: a in s.sizes && b in s.sizes && a != b ==> Apart(s, a, b))
  }

  ghost predicate Distinct<T(!new)>(s: seq<T>)
  {
    forall i, j :: 0 <= i < j < |s| ==> s[i] != s[j]
  }

  ghost predicate WellFormed(s: State)
  {
    && Tiles(s)
    && Distinct(s.free)
    && forall i :: 0 <= i < |s.free| ==> s.free[i] in s.sizes
  }

  const INITIAL := State(map[0 := HEAP_SIZE - HEADER], [0])

  // ----- the operations -----

  function AlignUp(size: nat): nat
    requires size < U64
  {
    (size + ALIGN - 1) % U64 / ALIGN * ALIGN
  }

  /** The payload size a request is served with. */
  function Rounded(size: nat): (r: nat)
    requires size < U64
    ensures r >= 1
  {
    Max(AlignUp(size), 1)
  }

  /** The position of the first block of the free list with at least `n` bytes. */
  function FirstFit(s: State, n: nat, from: nat): (i: Option<nat>)
    requires from <= |s.free| && forall i :: 0 <= i < |s.free| ==> s.free[i] in s.sizes
    ensures i.Some? ==> from <= i.value < |s.free| && s.sizes[s.free[i.value]] >= n
    ensures forall j :: from <= j < (if i.Some? then i.value else |s.free|) ==> s.sizes[s.free[j]] < n
    decreases |s.free| - from
  {
    if from == |s.free| then None
    else if s.sizes[s.free[from]] >= n then Some(from)
    else FirstFit(s, n, from + 1)
  }

  /** Whether a block of `size` bytes is split when `n` of them are taken. */
  predicate Splits(size: nat, n: nat) { size >= n && size - n > HEADER + ALIGN }

  /** Taking the `i`-th free block for `n` bytes. */
  function Take(s: State, i: nat, n: nat): State
    requires i < |s.free| && s.free[i] in s.sizes && s.sizes[s.free[i]] >= n
  {
    var a: nat := s.free[i];
    if Splits(s.sizes[a], n) then
      var rest: nat := a + HEADER + n;
      State(s.sizes[a := n][rest := s.sizes[a] - n - HEADER], [rest] + RemoveAt(s.free, i))
    else State(s.sizes, RemoveAt(s.free, i))
  }

  function Allocate(s: State, size: nat): (State, Option<nat>)
    requires size < U64 && forall i :: 0 <= i < |s.free| ==> s.free[i] in s.sizes
  {
    match FirstFit(s, Rounded(size), 0)
    case None => (s, None)
    case Some(i) => (Take(s, i, Rounded(size)), Some(s.free[i] + HEADER))
  }

  /** The position of `a` in the free list. */
  function Position(free: seq<nat>, a: nat): (i: Option<nat>)
    ensures i.Some? ==> i.value < |free| && free[i.value] == a
    ensures i.None? ==> a !in free
  {
    if free == [] then None
    else if free[0] == a then Some(0)
    else match Position(free[1..], a) case None => None case Some(i) => Some(i + 1)
  }

  /** Merging the block at `a` with the free one behind it, if there is one. */
  function Coalesce(s: State, a: nat): State
    requires a in s.sizes && forall i :: 0 <= i < |s.free| ==> s.free[i] in s.sizes
  {
    match Position(s.free, s.End(a))
    case None => s
    case Some(i) =>
      var b: nat := s.End(a);
      State((s.sizes - {b})[a := s.sizes[a] + HEADER + s.sizes[b]], RemoveAt(s.free, i))
  }

  /** Releasing the block at `a`; releasing a free block again has no effect. */
  function Release(s: State, a: nat): State
    requires a in s.sizes && forall i :: 0 <= i < |s.free| ==> s.free[i] in s.sizes
  {
    if a in s.free then s else Coalesce(State(s.sizes, [a] + s.free), a)
  }

  // ----- every operation keeps the heap well formed -----

  /** The header a split writes is new: it lies inside the block that is taken. */
  lemma RestIsNew(s: State, a: nat, n: nat)
    requires Tiles(s) && a in s.sizes && Splits(s.sizes[a], n)
    ensures a + HEADER + n !in s.sizes
  {
    forall b | b in s.sizes ensures b != a + HEADER + n {
      assert Sound(s, b) && (b != a ==> Apart(s, a, b));
    }
  }

  lemma TakeKeepsTiles(s: State, i: nat, n: nat)
    requires Tiles(s) && i < |s.free| && s.free[i] in s.sizes && s.sizes[s.free[i]] >= n >= 1
    ensures Tiles(Take(s, i, n))
  {
    var a: nat, t := s.free[i], Take(s, i, n);
    if !Splits(s.sizes[a], n) {
      FreeListIrrelevant(s, t);
    } else {
      var rest: nat := a + HEADER + n;
      RestIsNew(s, a, n);
      assert Sound(s, a);
      forall x | x in t.sizes ensures Sound(t, x) {
        assert x in s.sizes ==> Sound(s, x);
      }
      forall x, y | x in t.sizes && y in t.sizes && x != y ensures Apart(t, x, y) {
        assert x in s.sizes && y in s.sizes ==> Apart(s, x, y);
        assert x in s.sizes && x != a ==> Apart(s, x, a);
        assert y in s.sizes && y != a ==> Apart(s, a, y);
      }
    }
  }

  lemma TakeKeeps(s: State, i: nat, n: nat)
    requires WellFormed(s) && i < |s.free| && s.sizes[s.free[i]] >= n >= 1
    ensures WellFormed(Take(s, i, n))
  {
    TakeKeepsTiles(s, i, n);
    var a: nat := s.free[i];
    if Splits(s.sizes[a], n) {
      RestIsNew(s, a, n);
    }
  }

  lemma CoalesceKeepsTiles(s: State, a: nat)
    requires Tiles(s) && a in s.sizes && Position(s.free, s.End(a)).Some?
    requires forall i :: 0 <= i < |s.free| ==> s.free[i] in s.sizes
    ensures Tiles(Coalesce(s, a))
  {
    var b: nat, t := s.End(a), Coalesce(s, a);
    assert Sound(s, a) && Sound(s, b);
    forall x | x in t.sizes ensures Sound(t, x) {
      assert Sound(s, x);
      assert x != a ==> Apart(s, x, a);
    }
    forall x, y | x in t.sizes && y in t.sizes && x != y ensures Apart(t, x, y) {
      assert Apart(s, x, y) && Apart(s, x, b) && Apart(s, y, b);
    }
  }

  lemma CoalesceKeeps(s: State, a: nat)
    requires WellFormed(s) && a in s.sizes
    ensures WellFormed(Coalesce(s, a))
  {
    if Position(s.free, s.End(a)).Some? {
      CoalesceKeepsTiles(s, a);
    }
  }

  lemma ReleaseKeeps(s: State, a: nat)
    requires WellFormed(s) && a in s.sizes
    ensures WellFormed(Release(s, a))
  {
    if a !in s.free {
      var t := State(s.sizes, [a] + s.free);
      FreeListIrrelevant(s, t);
      CoalesceKeeps(t, a);
    }
  }

  lemma FreeListIrrelevant(s: State, t: State)
    requires Tiles(s) && s.sizes == t.sizes
    ensures Tiles(t)
  {
    forall a | a in t.sizes ensures Sound(t, a) {
      assert Sound(s, a);
    }
    forall a, b | a in t.sizes && b in t.sizes && a != b ensures Apart(t, a, b) {
      assert Apart(s, a, b);
    }
  }

  // ----- runs -----

  datatype Op = Alloc(size: nat) | Free(p: nat)

  /** The heap together with the outstanding requests: payload address to requested size. */
  datatype Run = Run(heap: State, live: map<nat, nat>)

  /** A request fits in 64 bits; a pointer passed to `delete` is the payload of some block, live or not. */
  predicate Permitted(r: Run, op: Op)
  {
    match op
    case Alloc(size) => size < U64
    case Free(p) => p >= HEADER && p - HEADER in r.heap.sizes
  }

  ghost function Step(r: Run, op: Op): Run
    requires WellFormed(r.heap) && Permitted(r, op)
  {
    match op
    case Alloc(size) =>
      var (t, p) := Allocate(r.heap, size);
      Run(t, if p.Some? then r.live[p.value := size] else r.live)
    case Free(p) => Run(Release(r.heap, p - HEADER), r.live - {p})
  }

  /** An outstanding request has its own block, which is as large as requested unless rounding wrapped. */
  ghost predicate Held(r: Run, p: nat)
    requires p in r.live
  {
    && p >= HEADER && p - HEADER in r.heap.sizes && p - HEADER !in r.heap.free
    && r.live[p] < U64
    && (r.heap.sizes[p - HEADER] >= r.live[p] <==> r.live[p] + ALIGN - 1 < U64)
  }

  /** No block is lost: it is free or belongs to an outstanding request. */
  ghost predicate Owned(r: Run, a: nat) { a in r.heap.free || a + HEADER in r.live }

  ghost predicate Inv(r: Run)
  {
    && WellFormed(r.heap)
    && (forall p {:trigger Held(r, p)} :: p in r.live ==> Held(r, p))
    && (forall a {:trigger Owned(r, a)} :: a in r.heap.sizes ==> Owned(r, a))
  }

  lemma RemoveAtMembers(s: seq<nat>, i: nat, x: nat)
    requires i < |s| && Distinct(s)
    ensures x in RemoveAt(s, i) <==> x in s && x != s[i]
  {
    if x in s && x != s[i] {
      var j :| 0 <= j < |s| && s[j] == x;
      assert RemoveAt(s, i)[if j < i then j else j - 1] == x;
    }
  }

  /** The rounded size is the least multiple of 16 that covers a positive request, unless the addition wraps. */
  lemma RoundedCovers(size: nat)
    requires size < U64
    ensures 0 < size && size + 15 < U64 ==> Rounded(size) % 16 == 0 && size <= Rounded(size) < size + 16
    ensures size + 15 >= U64 || size == 0 ==> Rounded(size) == 1
    ensures size + ALIGN - 1 < U64 ==> Rounded(size) >= size
  {}

  /** Taking a block takes it off the list, and may add a new free one behind it. */
  lemma TakeMembers(s: State, i: nat, n: nat, x: nat)
    requires WellFormed(s) && i < |s.free| && s.sizes[s.free[i]] >= n >= 1
    ensures var (a, t) := (s.free[i], Take(s, i, n));
      var rest := Splits(s.sizes[a], n) && x == a + HEADER + n;
      && a in t.sizes && t.sizes[a] >= n && a !in t.free
      && (rest ==> x !in s.sizes)
      && (x in t.sizes <==> x in s.sizes || rest)
      && (x in t.free <==> (x in s.free && x != a) || rest)
      && (x in s.sizes && x != a ==> t.sizes[x] == s.sizes[x])
  {
    var a: nat := s.free[i];
    RemoveAtMembers(s.free, i, x);
    RemoveAtMembers(s.free, i, a);
    if Splits(s.sizes[a], n) {
      RestIsNew(s, a, n);
    }
  }

  lemma AllocKeeps(r: Run, size: nat)
    requires Inv(r) && size < U64
    ensures Inv(Step(r, Alloc(size)))
  {
    var n, t := Rounded(size), Step(r, Alloc(size));
    var i := FirstFit(r.heap, n, 0);
    if i.Some? {
      TakeKeeps(r.heap, i.value, n);
      RoundedCovers(size);
      hide Take, Tiles, Rounded;
      forall p | p in t.live ensures Held(t, p) {
        assert p in r.live ==> Held(r, p);
        TakeMembers(r.heap, i.value, n, p - HEADER);
      }
      forall x | x in t.heap.sizes ensures Owned(t, x) {
        TakeMembers(r.heap, i.value, n, x);
        assert x in r.heap.sizes ==> Owned(r, x);
      }
    }
  }

  /** Merging only removes a free block's header and lets the merged block grow. */
  lemma CoalesceMembers(s: State, a: nat, x: nat)
    requires WellFormed(s) && a in s.sizes
    ensures var t := Coalesce(s, a);
      && (x in t.sizes <==> x in s.sizes && !(x in s.free && x == s.End(a)))
      && (x in t.free <==> x in s.free && x != s.End(a))
      && (x in t.sizes && x != a ==> t.sizes[x] == s.sizes[x])
  {
    var i := Position(s.free, s.End(a));
    if i.Some? {
      RemoveAtMembers(s.free, i.value, x);
    }
  }

  lemma FreeKeeps(r: Run, p: nat)
    requires Inv(r) && Permitted(r, Free(p))
    ensures Inv(Step(r, Free(p)))
  {
    hide Coalesce, Position, Tiles;
    var a: nat, t := p - HEADER, Step(r, Free(p));
    ReleaseKeeps(r.heap, a);
    if a in r.heap.free {
      assert p in r.live ==> Held(r, p);
      forall q | q in t.live ensures Held(t, q) { assert Held(r, q); }
      forall x | x in t.heap.sizes ensures Owned(t, x) { assert Owned(r, x); }
    } else {
      var s := State(r.heap.sizes, [a] + r.heap.free);
      FreeListIrrelevant(r.heap, s);
      forall q | q in t.live ensures Held(t, q) {
        assert Held(r, q);
        CoalesceMembers(s, a, q - HEADER);
      }
      forall x | x in t.heap.sizes ensures Owned(t, x) {
        CoalesceMembers(s, a, x);
        assert Owned(r, x);
      }
    }
  }

  ghost predicate Reaches(r: Run, ops: seq<Op>, after: Run)
    decreases |ops|
  {
    if ops == [] then after == r
    else WellFormed(r.heap) && Permitted(r, ops[0]) && Reaches(Step(r, ops[0]), ops[1..], after)
  }

  /** Every reachable heap is well formed, loses no block and serves every outstanding request. */
  lemma {:induction false} RunKeeps(r: Run, ops: seq<Op>, after: Run)
    requires Inv(r) && Reaches(r, ops, after)
    ensures Inv(after)
    decreases |ops|
  {
    if ops != [] {
      match ops[0] {
        case Alloc(size) => AllocKeeps(r, size);
        case Free(p) => FreeKeeps(r, p);
      }
      RunKeeps(Step(r, ops[0]), ops[1..], after);
    }
  }

  lemma InitialHolds()
    ensures Inv(Run(INITIAL, map[]))
  {
    var r := Run(INITIAL, map[]);
    assert INITIAL.free[0] == 0;
    forall a | a in INITIAL.sizes ensures a == 0 && Sound(INITIAL, a) && Owned(r, a) {}
    assert Tiles(r.heap);
    assert Distinct(r.heap.free);
    assert WellFormed(r.heap);
  }

  // ----- what the invariant means -----

  /** Every byte of the buffer belongs to exactly one block: no operation gains or loses space. */
  lemma ExactCover(s: State, x: nat)
    requires Tiles(s) && x < HEAP_SIZE
    ensures exists a :: a in s.sizes && a <= x < s.End(a)
    ensures forall a, b :: a in s.sizes && b in s.sizes && a <= x < s.End(a) && b <= x < s.End(b) ==> a == b
  {
    var a := CoverFrom(s, 0, x);
    forall a, b | a in s.sizes && b in s.sizes && a <= x < s.End(a) && b <= x < s.End(b) ensures a == b {
      assert a != b ==> Apart(s, a, b);
    }
  }

  lemma {:induction false} CoverFrom(s: State, a: nat, x: nat) returns (b: nat)
    requires Tiles(s) && a in s.sizes && a <= x < HEAP_SIZE
    ensures b in s.sizes && b <= x < s.End(b)
    decreases HEAP_SIZE - a
  {
    assert Sound(s, a);
    b := a;
    if x >= s.End(a) {
      b := CoverFrom(s, s.End(a), x);
    }
  }

  /** Outstanding payloads lie in the buffer, apart from each other and from every header. */
  lemma LivePayloadsAreDisjoint(r: Run, p: nat, q: nat, h: nat)
    requires Inv(r) && p in r.live && q in r.live && h in r.heap.sizes
    ensures p >= HEADER && p - HEADER in r.heap.sizes && q >= HEADER && q - HEADER in r.heap.sizes
    ensures var n, m := r.heap.sizes[p - HEADER], r.heap.sizes[q - HEADER];
      && p + n <= HEAP_SIZE
      && (p != q ==> p + n <= q || q + m <= p)
      && (h + HEADER <= p || p + n <= h)
  {
    assert Held(r, p) && Held(r, q);
    assert Sound(r.heap, p - HEADER);
    assert p != q ==> Apart(r.heap, p - HEADER, q - HEADER);
    assert h != p - HEADER ==> Apart(r.heap, h, p - HEADER);
  }

  /** Over every run from the initial heap. */
  lemma ReachableHeaps(ops: seq<Op>, after: Run, x: nat, p: nat, q: nat, h: nat)
    requires Reaches(Run(INITIAL, map[]), ops, after)
    ensures x < HEAP_SIZE ==> exists a :: a in after.heap.sizes && a <= x < after.heap.End(a)
    ensures p in after.live ==> p >= HEADER && p - HEADER in after.heap.sizes
    ensures p in after.live ==>
      (after.heap.sizes[p - HEADER] >= after.live[p] <==> after.live[p] + ALIGN - 1 < U64)
    ensures p in after.live && q in after.live && p < q ==> p + after.heap.sizes[p - HEADER] <= q
    ensures p in after.live && h in after.heap.sizes && p < h + HEADER ==> p + after.heap.sizes[p - HEADER] <= h
  {
    InitialHolds();
    RunKeeps(Run(INITIAL, map[]), ops, after);
    if x < HEAP_SIZE {
      ExactCover(after.heap, x);
    }
    if p in after.live {
      assert Held(after, p);
      if h in after.heap.sizes {
        LivePayloadsAreDisjoint(after, p, p, h);
      }
      if q in after.live {
        LivePayloadsAreDisjoint(after, p, q, p - HEADER);
      }
    }
  }

  // ----- what one allocation and release promise -----

  /** `r` is the least multiple of 16 that covers the request; a request for nothing or one that wraps gets 1. */
  predicate Serves(size: nat, r: nat)
  {
    if 0 < size && size + 15 < U64 then r % 16 == 0 && size <= r < size + 16 else r == 1
  }

  lemma ServesRounded(size: nat, r: nat)
    requires size < U64 && Serves(size, r)
    ensures r == Rounded(size)
  {}

  /** The `i`-th free block is the first of the list with at least `r` bytes. */
  predicate FirstOf(s: State, i: nat, r: nat)
    requires i < |s.free| && forall j :: 0 <= j < |s.free| ==> s.free[j] in s.sizes
  {
    s.sizes[s.free[i]] >= r && forall j :: 0 <= j < i ==> s.sizes[s.free[j]] < r
  }

  /**
  Allocation fails exactly if every free block is smaller than the least multiple of 16 that covers the request,
  and then changes nothing; otherwise it takes the first block of the list that is not.
  */
  lemma FirstFitOrNull(s: State, size: nat, r: nat)
    requires WellFormed(s) && size < U64 && Serves(size, r)
    ensures var (t, p) := Allocate(s, size);
      if p.None? then t == s && forall j :: 0 <= j < |s.free| ==> s.sizes[s.free[j]] < r
      else exists i :: 0 <= i < |s.free| && p.value == s.free[i] + 32 && FirstOf(s, i, r)
  {
    ServesRounded(size, r);
    hide Rounded, Serves, Tiles;
    var i := FirstFit(s, Rounded(size), 0);
    if i.Some? {
      assert FirstOf(s, i.value, r);
    }
  }

  /**
  What an allocation from the `i`-th free block does: more than 48 bytes left over become a new free block behind
  it, at the front of the list; the block goes from the list, and nothing else changes.
  */
  lemma AllocateEffect(s: State, size: nat, r: nat, i: nat)
    requires WellFormed(s) && size < U64 && Serves(size, r)
    requires i < |s.free| && FirstOf(s, i, r)
    ensures var (t, p) := Allocate(s, size);
      var (a, others) := (s.free[i], s.free[..i] + s.free[i + 1..]);
      && p == Some(a + 32)
      && if s.sizes[a] > r + 48
         then t.sizes == s.sizes[a := r][a + 32 + r := s.sizes[a] - r - 32] && t.free == [a + 32 + r] + others
         else t.sizes == s.sizes && t.free == others
  {
    ServesRounded(size, r);
    hide Rounded, Serves, Tiles;
  }

  /**
  What a release does: the block comes to the front of the list, and swallows the block right behind it with its
  32 header bytes if that is free; nothing else changes.
  */
  lemma ReleaseEffect(s: State, a: nat)
    requires WellFormed(s) && a in s.sizes && a !in s.free
    ensures var (t, b) := (Release(s, a), a + 32 + s.sizes[a]);
      if b !in s.free then t == State(s.sizes, [a] + s.free)
      else
        && b in s.sizes && t.sizes == (s.sizes - {b})[a := s.sizes[a] + 32 + s.sizes[b]]
        && exists i :: 0 <= i < |s.free| && s.free[i] == b && t.free == [a] + (s.free[..i] + s.free[i + 1..])
  {
    hide Tiles;
    var u, b := State(s.sizes, [a] + s.free), a + 32 + s.sizes[a];
    var k := Position(u.free, b);
    InTail(a, s.free, b);
    if b in s.free {
      var i := k.value - 1;
      assert u.free[k.value] == s.free[i] == b;
      assert RemoveAt(u.free, k.value) == [a] + (s.free[..i] + s.free[i + 1..]);
    }
  }

  lemma InTail(a: nat, free: seq<nat>, b: nat)
    ensures b in [a] + free <==> b == a || b in free
  {}

  /** The first requests on the 16 MiB buffer: 9 MiB fit, and so does all of it but the header. */
  lemma FreshHeap()
    ensures INITIAL == State(map[0 := 16777184], [0])
    ensures Allocate(INITIAL, 9437184).1 == Allocate(INITIAL, 16777184).1 == Some(32)
    ensures Allocate(INITIAL, 16777185).1 == None
  {
    assert INITIAL.free[0] == 0;
  }

  /**
  Releasing what was just allocated restores the tiling exactly if the block had been split or the
  block behind it is not free; otherwise the release merges the two.
  */
  lemma {:induction false} AllocateReleaseRestoresIff(s: State, size: nat)
    requires WellFormed(s) && size < U64 && Allocate(s, size).1.Some?
    ensures var (t, p) := Allocate(s, size);
      var a: nat := p.value - HEADER;
      && a in t.sizes && a in s.sizes
      && (Release(t, a).sizes == s.sizes <==> Splits(s.sizes[a], Rounded(size)) || s.End(a) !in s.free)
  {
    hide Tiles, FirstFit, Take, Coalesce, Position, Rounded;
    var n := Rounded(size);
    TakeReleaseRestoresIff(s, FirstFit(s, n, 0).value, n);
  }

  lemma TakeReleaseRestoresIff(s: State, i: nat, n: nat)
    requires WellFormed(s) && i < |s.free| && s.sizes[s.free[i]] >= n >= 1
    ensures var a: nat, t := s.free[i], Take(s, i, n);
      && a in t.sizes && (forall k :: 0 <= k < |t.free| ==> t.free[k] in t.sizes)
      && (Release(t, a).sizes == s.sizes <==> Splits(s.sizes[a], n) || s.End(a) !in s.free)
  {
    RemoveAtMembers(s.free, i, s.free[i]);
    if Splits(s.sizes[s.free[i]], n) {
      SplitReleases(s, i, n);
    } else {
      assert Sound(s, s.free[i]);
      RemoveAtMembers(s.free, i, s.End(s.free[i]));
    }
  }

  lemma SplitReleases(s: State, i: nat, n: nat)
    requires WellFormed(s) && i < |s.free| && s.sizes[s.free[i]] >= n >= 1 && Splits(s.sizes[s.free[i]], n)
    ensures var a: nat, t := s.free[i], Take(s, i, n);
      && a in t.sizes && (forall k :: 0 <= k < |t.free| ==> t.free[k] in t.sizes)
      && Release(t, a).sizes == s.sizes
  {
    var a: nat, t := s.free[i], Take(s, i, n);
    var rest: nat := a + HEADER + n;
    RemoveAtMembers(s.free, i, a);
    RestIsNew(s, a, n);
    hide Tiles, Distinct;
    var u := State(t.sizes, [a] + t.free);
    assert u.free[1] == rest && u.End(a) == rest;
    assert Release(t, a).sizes == s.sizes;
  }

  /** While no request is for zero bytes or wraps, all blocks stay 16-byte aligned. */
  ghost predicate Aligned(s: State)
  {
    forall a :: a in s.sizes ==> a % ALIGN == 0 && s.sizes[a] % ALIGN == 0
  }

  lemma TakeAligned(s: State, i: nat, n: nat)
    requires Aligned(s) && i < |s.free| && s.free[i] in s.sizes && s.sizes[s.free[i]] >= n && n % ALIGN == 0
    ensures Aligned(Take(s, i, n))
  {
    assert s.free[i] % ALIGN == 0 && s.sizes[s.free[i]] % ALIGN == 0;
  }

  lemma CoalesceAligned(s: State, a: nat)
    requires Aligned(s) && a in s.sizes && forall i :: 0 <= i < |s.free| ==> s.free[i] in s.sizes
    ensures Aligned(Coalesce(s, a))
  {
    hide Position;
    var i := Position(s.free, s.End(a));
    assert i.Some? ==> s.free[i.value] in s.sizes;
  }

  lemma AlignedSteps(r: Run, op: Op)
    requires Inv(r) && Permitted(r, op) && Aligned(r.heap)
    requires op.Alloc? ==> 0 < op.size && op.size + ALIGN - 1 < U64
    ensures Aligned(Step(r, op).heap)
  {
    hide Aligned, Take, Coalesce, Tiles;
    match op
    case Alloc(size) =>
      var i := FirstFit(r.heap, Rounded(size), 0);
      if i.Some? {
        TakeAligned(r.heap, i.value, Rounded(size));
      }
    case Free(p) =>
      var s := State(r.heap.sizes, [p - HEADER] + r.heap.free);
      assert Aligned(s) by { SameAligned(r.heap, s); }
      CoalesceAligned(s, p - HEADER);
  }

  lemma SameAligned(s: State, t: State)
    requires Aligned(s) && s.sizes == t.sizes
    ensures Aligned(t)
  {}

  /**
  An allocation keeps the blocks aligned exactly if its size is positive and rounds without wrapping, or
  there is no free block, or the first one is too small to be split for a single byte.
  */
  lemma AlignedAllocIff(r: Run, size: nat)
    requires Inv(r) && Aligned(r.heap) && size < U64
    ensures Aligned(Step(r, Alloc(size)).heap)
       <==> (0 < size && size + ALIGN - 1 < U64) || r.heap.free == [] || !Splits(r.heap.sizes[r.heap.free[0]], 1)
  {
    hide Tiles;
    if 0 < size && size + ALIGN - 1 < U64 {
      AlignedSteps(r, Alloc(size));
    } else if r.heap.free != [] {
      OneByteFits(r.heap);
      assert Rounded(size) == 1 && FirstFit(r.heap, 1, 0) == Some(0);
      var a: nat, t := r.heap.free[0], Take(r.heap, 0, 1);
      if Splits(r.heap.sizes[a], 1) {
        assert a in t.sizes && t.sizes[a] == 1;
      } else {
        SameAligned(r.heap, t);
      }
    }
  }

  lemma OneByteFits(s: State)
    requires WellFormed(s) && s.free != []
    ensures FirstFit(s, 1, 0) == Some(0)
  {
    assert Sound(s, s.free[0]);
  }

  /** After a request for zero bytes the next payload is not aligned. */
  lemma ZeroBytesMisalign()
    ensures var t := Allocate(INITIAL, 0).0;
      WellFormed(t) && Allocate(t, 16).1 == Some(65)
  {
    AllocKeeps(Run(INITIAL, map[]), 0);
    var t := Allocate(INITIAL, 0).0;
    assert t.free == [33];
  }
}
