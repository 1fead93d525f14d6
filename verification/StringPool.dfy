/** Any number of strings under any sequence of operations: texts, and who owns which buffer. */
module StringPool {
  import opened Bytes
  import opened BasicString

  datatype Op =
    | Append(i: nat, j: nat, from: nat, len: nat)
    | AppendText(i: nat, text: seq<byte>)
    | Assign(i: nat, j: nat)
    | Move(i: nat, j: nat)
    | Clear(i: nat)
    | New
    | Destroy(i: nat)

  /** The operation names strings of the pool, and characters the source string has. */
  predicate Allowed(texts: seq<seq<byte>>, op: Op)
  {
    match op
    case Append(i, j, from, len) => i < |texts| && j < |texts| && from + len <= |texts[j]|
    case AppendText(i, _) => i < |texts|
    case Assign(i, j) => i < |texts| && j < |texts|
    case Move(i, j) => i < |texts| && j < |texts|
    case Clear(i) => i < |texts|
    case New => true
    case Destroy(i) => i < |texts|
  }

  /**
  The operations on plain texts. `AppendText` brings in characters from outside, a C string, a view, an array
  or a single character. Constructing from one of those is `New` followed by `AppendText`; a copy or move
  constructor is `New` followed by `Append` or `Move`; a string moved onto itself stays as it is.
  */
  function Step(texts: seq<seq<byte>>, op: Op): (t: seq<seq<byte>>)
    requires Allowed(texts, op)
    ensures |t| == |texts| + if op.New? then 1 else if op.Destroy? then -1 else 0
  {
    match op
    case Append(i, j, from, len) => texts[i := texts[i] + texts[j][from..from + len]]
    case AppendText(i, text) => texts[i := texts[i] + text]
    case Assign(i, j) => texts[i := texts[j]]
    case Move(i, j) => if i == j then texts else texts[i := texts[j]][j := []]
    case Clear(i) => texts[i := []]
    case New => texts + [[]]
    case Destroy(i) => RemoveAt(texts, i)
  }

  // ----- who owns which buffer -----

  ghost function Locals(pool: seq<BasicString>): (ls: seq<array<byte>>)
    ensures |ls| == |pool| && forall k :: 0 <= k < |pool| ==> ls[k] == pool[k].sso
  {
    seq(|pool|, k requires 0 <= k < |pool| => pool[k].sso)
  }

  ghost function Owners(pool: seq<BasicString>): (os: seq<set<array<byte>>>)
    reads pool
    ensures |os| == |pool| && forall k :: 0 <= k < |pool| ==> os[k] == pool[k].Owned()
  {
    if pool == [] then [] else Owners(pool[..|pool| - 1]) + [pool[|pool| - 1].Owned()]
  }

  ghost function Union(owned: seq<set<array<byte>>>): set<array<byte>>
  {
    set k, b | 0 <= k < |owned| && b in owned[k] :: b
  }

  /** Strings `j` and `k` share no buffer. */
  ghost predicate SplitAt(locals: seq<array<byte>>, owned: seq<set<array<byte>>>, j: nat, k: nat)
    requires j < |locals| == |owned| && k < |owned|
  {
    locals[j] != locals[k] && owned[j] !! owned[k] && locals[j] !in owned[k] && locals[k] !in owned[j]
  }

  ghost predicate Split(locals: seq<array<byte>>, owned: seq<set<array<byte>>>)
  {
    |locals| == |owned| &&
    forall j, k {:trigger SplitAt(locals, owned, j, k)} ::
      0 <= j < |owned| && 0 <= k < |owned| && j != k ==> SplitAt(locals, owned, j, k)
  }

  /** Exchanging the `i`-th string's buffers for new ones keeps everything apart and accounted for. */
  lemma Exchange(locals: seq<array<byte>>, owned: seq<set<array<byte>>>, i: nat, o: set<array<byte>>)
    requires Split(locals, owned) && i < |owned|
    requires forall b :: b in o - owned[i] ==> b !in locals && b !in Union(owned)
    ensures Split(locals, owned[i := o])
    ensures Union(owned[i := o]) == Union(owned) - owned[i] + o
  {
    var after := owned[i := o];
    forall j, k | 0 <= j < |owned| && 0 <= k < |owned| && j != k ensures SplitAt(locals, after, j, k) {
      assert SplitAt(locals, owned, j, k);
      assert locals[j] in locals && locals[k] in locals;
      assert forall b :: b in owned[j] || b in owned[k] ==> b in Union(owned);
    }
    forall b | b in Union(owned) - owned[i] ensures b in Union(after) {
      var k :| 0 <= k < |owned| && b in owned[k];
      assert b in after[k];
    }
    forall b | b in o ensures b in Union(after) {
      assert b in after[i];
    }
    forall b | b in Union(after) ensures b in Union(owned) - owned[i] + o {
      var k :| 0 <= k < |owned| && b in after[k];
      assert k != i ==> SplitAt(locals, owned, k, i);
    }
  }

  /** Handing the `j`-th string's buffers to the `i`-th, whose own have been freed. */
  lemma HandOver(locals: seq<array<byte>>, owned: seq<set<array<byte>>>, i: nat, j: nat)
    requires Split(locals, owned) && i < |owned| && j < |owned| && i != j && locals[j] !in owned[j]
    ensures Split(locals, owned[i := owned[j]][j := {}])
    ensures Union(owned[i := owned[j]][j := {}]) == Union(owned) - owned[i]
  {
    Exchange(locals, owned, i, {});
    var cleared := owned[i := {}];
    Exchange(locals, cleared, j, {});
    var both := cleared[j := {}];
    forall b | b in owned[j] ensures b !in locals && b !in Union(both) {
      forall k | 0 <= k < |locals| ensures b != locals[k] && b !in both[k] {
        assert k != j ==> SplitAt(locals, owned, j, k);
      }
    }
    Exchange(locals, both, i, owned[j]);
    assert both[i := owned[j]] == owned[i := owned[j]][j := {}];
    assert SplitAt(locals, owned, i, j);
  }

  /** A string that owns nothing comes in. */
  lemma Enter(locals: seq<array<byte>>, owned: seq<set<array<byte>>>, b: array<byte>)
    requires Split(locals, owned) && b !in locals && b !in Union(owned)
    ensures Split(locals + [b], owned + [{}]) && Union(owned + [{}]) == Union(owned)
  {
    var ls, os := locals + [b], owned + [{}];
    forall j, k | 0 <= j < |os| && 0 <= k < |os| && j != k ensures SplitAt(ls, os, j, k) {
      assert j < |owned| && k < |owned| ==> SplitAt(locals, owned, j, k);
      assert forall x :: x in os[j] || x in os[k] ==> x in Union(owned);
      assert j < |owned| ==> locals[j] in locals;
      assert k < |owned| ==> locals[k] in locals;
    }
    forall x | x in Union(owned) ensures x in Union(os) {
      var k :| 0 <= k < |owned| && x in owned[k];
      assert x in os[k];
    }
  }

  /** A string that owns nothing goes. */
  lemma Leave(locals: seq<array<byte>>, owned: seq<set<array<byte>>>, i: nat)
    requires Split(locals, owned) && i < |owned| && owned[i] == {}
    ensures Split(RemoveAt(locals, i), RemoveAt(owned, i)) && Union(RemoveAt(owned, i)) == Union(owned)
  {
    var ls, os := RemoveAt(locals, i), RemoveAt(owned, i);
    forall j, k | 0 <= j < |os| && 0 <= k < |os| && j != k ensures SplitAt(ls, os, j, k) {
      assert SplitAt(locals, owned, if j < i then j else j + 1, if k < i then k else k + 1);
    }
    forall x | x in Union(owned) ensures x in Union(os) {
      var k :| 0 <= k < |owned| && x in owned[k];
      assert x in os[if k < i then k else k - 1];
    }
  }

  // ----- the pool -----

  ghost predicate Holds(s: BasicString, ledger: Ledger, capacity: nat, text: seq<byte>)
    reads s, s.sso, s.heap, s.ledger
  {
    s.ledger == ledger && s.capacity == capacity && s.Valid() && s.Contents() == text
  }

  /** Every string holds its text, no two share a buffer, and the live buffers are exactly the owned ones. */
  ghost predicate Pool(pool: seq<BasicString>, ledger: Ledger, capacity: nat, texts: seq<seq<byte>>)
    reads ledger, pool, Locals(pool), set k | 0 <= k < |pool| :: pool[k].heap
    reads set k | 0 <= k < |pool| :: pool[k].ledger
  {
    && AllHold(pool, ledger, capacity, texts)
    && (forall j, k :: 0 <= j < k < |pool| ==> pool[j] != pool[k])
    && Split(Locals(pool), Owners(pool))
    && ledger.live == Union(Owners(pool))
  }

  ghost predicate AllHold(pool: seq<BasicString>, ledger: Ledger, capacity: nat, texts: seq<seq<byte>>)
    reads ledger, pool, Locals(pool), set k | 0 <= k < |pool| :: pool[k].heap
    reads set k | 0 <= k < |pool| :: pool[k].ledger
  {
    |texts| == |pool| &&
    forall k {:trigger Holds(pool[k], ledger, capacity, texts[k])} ::
      0 <= k < |pool| ==> Holds(pool[k], ledger, capacity, texts[k])
  }

  method AppendTo(pool: seq<BasicString>, ledger: Ledger, ghost capacity: nat, ghost texts: seq<seq<byte>>,
                  i: nat, source: array<byte>, from: nat, len: nat)
    requires Pool(pool, ledger, capacity, texts) && i < |pool| && pool[i].ledger == ledger
    requires pool[i].Valid() && pool[i].Contents() == texts[i] && pool[i].Source(source, from, len)
    requires source == pool[i].Buffer() ==> from + len <= pool[i].length
    modifies ledger, pool[i], pool[i].sso, pool[i].Owned()
    ensures AllHold(pool, ledger, capacity, texts[i := texts[i] + old(source[from..from + len])])
    ensures Owners(pool) == old(Owners(pool))[i := pool[i].Owned()]
    ensures ledger.live == old(ledger.live) - old(pool[i].Owned()) + pool[i].Owned()
    ensures fresh(pool[i].Owned() - old(pool[i].Owned()))
  {
    hide Union, Owners, Locals;
    ghost var locals, owned := Locals(pool), Owners(pool);
    ghost var after := texts[i := texts[i] + source[from..from + len]];
    assert Holds(pool[i], ledger, capacity, texts[i]);
    pool[i].Append(source, from, len);
    forall k | 0 <= k < |pool| ensures Holds(pool[k], ledger, capacity, after[k]) {
      assert old(Holds(pool[k], ledger, capacity, texts[k]));
      assert k != i ==> SplitAt(locals, owned, i, k);
    }
  }

  method PerformAppend(pool: seq<BasicString>, ledger: Ledger, ghost capacity: nat, ghost texts: seq<seq<byte>>,
                       i: nat, j: nat, from: nat, len: nat)
    requires Pool(pool, ledger, capacity, texts) && Allowed(texts, Append(i, j, from, len))
    modifies ledger, pool[i], pool[i].sso, pool[i].Owned()
    ensures Pool(pool, ledger, capacity, texts[i := texts[i] + texts[j][from..from + len]])
    ensures fresh(ledger.live - old(ledger.live))
  {
    hide Union, Owners, Locals, Holds;
    ghost var locals, owned := Locals(pool), Owners(pool);
    SourceAllowed(pool, ledger, capacity, texts, i, j, from, len);
    AppendTo(pool, ledger, capacity, texts, i, pool[j].Buffer(), from, len);
    Exchange(locals, owned, i, pool[i].Owned());
  }

  /** Appending characters that are in no string of the pool. */
  method PerformAppendText(pool: seq<BasicString>, ledger: Ledger, ghost capacity: nat, ghost texts: seq<seq<byte>>,
                           i: nat, text: seq<byte>)
    requires Pool(pool, ledger, capacity, texts) && i < |pool|
    modifies ledger, pool[i], pool[i].sso, pool[i].Owned()
    ensures Pool(pool, ledger, capacity, texts[i := texts[i] + text])
    ensures fresh(ledger.live - old(ledger.live))
  {
    hide Union, Owners, Locals, Holds;
    ghost var locals, owned := Locals(pool), Owners(pool);
    PairApart(pool, ledger, capacity, texts, i, i);
    var source := new byte[|text|](k requires 0 <= k < |text| => text[k]);
    assert source[0..|text|] == text;
    AppendTo(pool, ledger, capacity, texts, i, source, 0, |text|);
    Exchange(locals, owned, i, pool[i].Owned());
  }

  /** The chosen slice is a legal source for the chosen string. */
  lemma SourceAllowed(pool: seq<BasicString>, ledger: Ledger, capacity: nat, texts: seq<seq<byte>>,
                      i: nat, j: nat, from: nat, len: nat)
    requires Pool(pool, ledger, capacity, texts) && Allowed(texts, Append(i, j, from, len))
    ensures pool[i].ledger == ledger && pool[i].Valid() && pool[i].Source(pool[j].Buffer(), from, len)
    ensures pool[i].Contents() == texts[i] && from + len <= pool[j].length
    ensures pool[i].Buffer() == pool[j].Buffer() ==> i == j
    ensures pool[j].Buffer()[from..from + len] == texts[j][from..from + len]
  {
    assert Holds(pool[i], ledger, capacity, texts[i]) && Holds(pool[j], ledger, capacity, texts[j]);
    assert i != j ==> SplitAt(Locals(pool), Owners(pool), i, j);
    var source := pool[j].Buffer();
    assert source[..pool[j].length][from..from + len] == source[from..from + len];
  }

  method ClearOne(pool: seq<BasicString>, ledger: Ledger, ghost capacity: nat, ghost texts: seq<seq<byte>>, i: nat)
    requires Pool(pool, ledger, capacity, texts) && i < |pool|
    modifies ledger, pool[i], pool[i].sso
    ensures Pool(pool, ledger, capacity, texts[i := []]) && ledger.live <= old(ledger.live)
    ensures pool[i].Owned() == {}
  {
    hide Union, Owners, Locals;
    ghost var locals, owned := Locals(pool), Owners(pool);
    ghost var after := texts[i := []];
    assert Holds(pool[i], ledger, capacity, texts[i]);
    pool[i].Clear();
    forall k | 0 <= k < |pool| ensures Holds(pool[k], ledger, capacity, after[k]) {
      assert old(Holds(pool[k], ledger, capacity, texts[k]));
      assert k != i ==> SplitAt(locals, owned, i, k);
    }
    assert Owners(pool) == owned[i := {}];
    Exchange(locals, owned, i, {});
  }

  lemma PairApart(pool: seq<BasicString>, ledger: Ledger, capacity: nat, texts: seq<seq<byte>>, i: nat, j: nat)
    requires Pool(pool, ledger, capacity, texts) && i < |pool| && j < |pool|
    ensures pool[i].ledger == pool[j].ledger == ledger && pool[i].capacity == pool[j].capacity
    ensures pool[i].Valid() && pool[j].Valid() && pool[i].Contents() == texts[i] && pool[j].Contents() == texts[j]
    ensures if i == j then pool[i] == pool[j] else pool[i].Apart(pool[j])
  {
    assert Holds(pool[i], ledger, capacity, texts[i]) && Holds(pool[j], ledger, capacity, texts[j]);
    assert i != j ==> SplitAt(Locals(pool), Owners(pool), i, j);
  }

  method AssignOne(pool: seq<BasicString>, ledger: Ledger, ghost capacity: nat, ghost texts: seq<seq<byte>>,
                   i: nat, j: nat)
    requires Pool(pool, ledger, capacity, texts) && i < |pool| && j < |pool|
    requires pool[i].Valid() && pool[j].Valid() && pool[i].ledger == ledger && pool[j].Contents() == texts[j]
    requires if i == j then pool[i] == pool[j] else pool[i].Apart(pool[j])
    modifies ledger, pool[i], pool[i].sso, pool[i].Owned()
    ensures AllHold(pool, ledger, capacity, texts[i := texts[j]])
    ensures Owners(pool) == old(Owners(pool))[i := pool[i].Owned()]
    ensures ledger.live == old(ledger.live) - old(pool[i].Owned()) + pool[i].Owned()
    ensures fresh(pool[i].Owned() - old(pool[i].Owned()))
  {
    hide Union, Owners, Locals;
    ghost var locals, owned := Locals(pool), Owners(pool);
    ghost var after := texts[i := texts[j]];
    assert Holds(pool[i], ledger, capacity, texts[i]);
    pool[i].Assign(pool[j]);
    forall k | 0 <= k < |pool| ensures Holds(pool[k], ledger, capacity, after[k]) {
      assert old(Holds(pool[k], ledger, capacity, texts[k]));
      assert k != i ==> SplitAt(locals, owned, i, k);
    }
  }

  method PerformAssign(pool: seq<BasicString>, ledger: Ledger, ghost capacity: nat, ghost texts: seq<seq<byte>>,
                       i: nat, j: nat)
    requires Pool(pool, ledger, capacity, texts) && i < |pool| && j < |pool|
    modifies ledger, pool[i], pool[i].sso, pool[i].Owned()
    ensures Pool(pool, ledger, capacity, texts[i := texts[j]])
    ensures fresh(ledger.live - old(ledger.live))
  {
    hide Union, Owners, Locals, Holds;
    ghost var locals, owned := Locals(pool), Owners(pool);
    PairApart(pool, ledger, capacity, texts, i, j);
    AssignOne(pool, ledger, capacity, texts, i, j);
    Exchange(locals, owned, i, pool[i].Owned());
  }

  method MoveOne(pool: seq<BasicString>, ledger: Ledger, ghost capacity: nat, ghost texts: seq<seq<byte>>,
                 i: nat, j: nat)
    requires Pool(pool, ledger, capacity, texts) && i < |pool| && j < |pool| && i != j
    requires pool[i].Valid() && pool[j].Valid() && pool[i].ledger == ledger && pool[j].Contents() == texts[j]
    requires pool[i].Apart(pool[j]) && pool[i].capacity == pool[j].capacity
    modifies ledger, pool[i], pool[i].sso, pool[j], pool[j].sso
    ensures AllHold(pool, ledger, capacity, texts[i := texts[j]][j := []])
    ensures Owners(pool) == old(Owners(pool))[i := old(pool[j].Owned())][j := {}]
    ensures ledger.live == old(ledger.live) - old(pool[i].Owned())
  {
    hide Union, Owners, Locals;
    ghost var locals, owned := Locals(pool), Owners(pool);
    ghost var after := texts[i := texts[j]][j := []];
    assert Holds(pool[i], ledger, capacity, texts[i]) && Holds(pool[j], ledger, capacity, texts[j]);
    pool[i].MoveFrom(pool[j]);
    forall k | 0 <= k < |pool| ensures Holds(pool[k], ledger, capacity, after[k]) {
      assert old(Holds(pool[k], ledger, capacity, texts[k]));
      assert k != i ==> SplitAt(locals, owned, i, k);
      assert k != j ==> SplitAt(locals, owned, j, k);
    }
  }

  /** Move assignment of a string to itself changes nothing. */
  method MoveOnItself(pool: seq<BasicString>, ledger: Ledger, ghost capacity: nat, ghost texts: seq<seq<byte>>, i: nat)
    requires Pool(pool, ledger, capacity, texts) && i < |pool|
    modifies ledger, pool[i], pool[i].sso
    ensures Pool(pool, ledger, capacity, texts) && ledger.live == old(ledger.live)
  {
    hide Union, Owners, Locals;
    ghost var owned := Owners(pool);
    PairApart(pool, ledger, capacity, texts, i, i);
    OthersApart(pool, ledger, capacity, texts, i);
    pool[i].MoveFrom(pool[i]);
    assert Owners(pool) == owned;
    forall k | 0 <= k < |pool| ensures Holds(pool[k], ledger, capacity, texts[k]) {
      assert old(Holds(pool[k], ledger, capacity, texts[k]));
    }
  }

  lemma OthersApart(pool: seq<BasicString>, ledger: Ledger, capacity: nat, texts: seq<seq<byte>>, i: nat)
    requires Pool(pool, ledger, capacity, texts) && i < |pool|
    ensures forall k :: 0 <= k < |pool| && k != i ==> pool[i].Apart(pool[k])
  {
    forall k | 0 <= k < |pool| && k != i ensures pool[i].Apart(pool[k]) {
      PairApart(pool, ledger, capacity, texts, i, k);
    }
  }

  /** The default constructor. */
  method Construct(pool: seq<BasicString>, ledger: Ledger, capacity: nat, ghost texts: seq<seq<byte>>)
    returns (after: seq<BasicString>)
    requires Pool(pool, ledger, capacity, texts)
    ensures Pool(after, ledger, capacity, texts + [[]])
    ensures |after| == |pool| + 1 && after[..|pool|] == pool && fresh(after[|pool|]) && fresh(after[|pool|].sso)
    ensures after[|pool|].Owned() == {}
  {
    ghost var locals, owned := Locals(pool), Owners(pool);
    var s := new BasicString(capacity, ledger);
    after := pool + [s];
    assert s.sso !in locals && s.sso !in Union(owned);
    hide Union, Locals, Split;
    Enter(locals, owned, s.sso);
    assert Locals(after) == locals + [s.sso];
    assert Owners(after) == owned + [{}];
    forall k | 0 <= k < |after| ensures Holds(after[k], ledger, capacity, (texts + [[]])[k]) {
      assert k < |pool| ==> old(Holds(pool[k], ledger, capacity, texts[k]));
    }
  }

  lemma Lengths(pool: seq<BasicString>, ledger: Ledger, capacity: nat, texts: seq<seq<byte>>)
    requires Pool(pool, ledger, capacity, texts)
    ensures |texts| == |pool|
  {}

  /** The constructors from a C string and from a view: an empty string that is then appended to. */
  method ConstructFrom(pool: seq<BasicString>, ledger: Ledger, capacity: nat, ghost texts: seq<seq<byte>>,
                       text: seq<byte>) returns (after: seq<BasicString>)
    requires Pool(pool, ledger, capacity, texts)
    modifies ledger
    ensures Pool(after, ledger, capacity, texts + [text])
    ensures |after| == |pool| + 1 && after[..|pool|] == pool && fresh(after[|pool|]) && fresh(after[|pool|].sso)
    ensures fresh(ledger.live - old(ledger.live))
  {
    hide Union, Owners, Locals, Holds, Split, AllHold;
    assert |texts| == |pool| by { Lengths(pool, ledger, capacity, texts); }
    after := Construct(pool, ledger, capacity, texts);
    PerformAppendText(after, ledger, capacity, texts + [[]], |pool|, text);
    assert [] + text == text;
    assert (texts + [[]])[|pool| := text] == texts + [text];
  }

  /** The destructor clears the string. */
  method DestroyOne(pool: seq<BasicString>, ledger: Ledger, ghost capacity: nat, ghost texts: seq<seq<byte>>, i: nat)
    returns (after: seq<BasicString>)
    requires Pool(pool, ledger, capacity, texts) && i < |pool|
    modifies ledger, pool[i], pool[i].sso
    ensures Pool(after, ledger, capacity, RemoveAt(texts, i)) && after == RemoveAt(pool, i)
    ensures ledger.live <= old(ledger.live)
  {
    hide Union, Locals, Owners, Split, Holds;
    ClearOne(pool, ledger, capacity, texts, i);
    after := RemoveAt(pool, i);
    Leave(Locals(pool), Owners(pool), i);
    assert Locals(after) == RemoveAt(Locals(pool), i);
    assert Owners(after) == RemoveAt(Owners(pool), i);
    forall k | 0 <= k < |after| ensures Holds(after[k], ledger, capacity, RemoveAt(texts, i)[k]) {
      var j := if k < i then k else k + 1;
      assert Holds(pool[j], ledger, capacity, texts[i := []][j]);
    }
  }

  method PerformMove(pool: seq<BasicString>, ledger: Ledger, ghost capacity: nat, ghost texts: seq<seq<byte>>,
                     i: nat, j: nat)
    requires Pool(pool, ledger, capacity, texts) && Allowed(texts, Move(i, j))
    modifies ledger, pool[i], pool[i].sso, pool[j], pool[j].sso
    ensures Pool(pool, ledger, capacity, if i == j then texts else texts[i := texts[j]][j := []])
    ensures ledger.live <= old(ledger.live)
  {
    if i == j {
      MoveOnItself(pool, ledger, capacity, texts, i);
      return;
    }
    hide Union, Owners, Locals, Holds;
    ghost var locals, owned := Locals(pool), Owners(pool);
    PairApart(pool, ledger, capacity, texts, i, j);
    MoveOne(pool, ledger, capacity, texts, i, j);
    HandOver(locals, owned, i, j);
  }

  // ----- runs -----

  ghost predicate AllAllowed(texts: seq<seq<byte>>, ops: seq<Op>)
    decreases |ops|
  {
    ops == [] || (Allowed(texts, ops[0]) && AllAllowed(Step(texts, ops[0]), ops[1..]))
  }

  ghost function Run(texts: seq<seq<byte>>, ops: seq<Op>): seq<seq<byte>>
    requires AllAllowed(texts, ops)
    decreases |ops|
  {
    if ops == [] then texts else Run(Step(texts, ops[0]), ops[1..])
  }

  lemma OwnedIn(pool: seq<BasicString>, i: nat)
    requires i < |pool|
    ensures pool[i].Owned() <= Union(Owners(pool))
  {
    assert Owners(pool)[i] == pool[i].Owned();
  }

  method Perform(pool: seq<BasicString>, ledger: Ledger, capacity: nat, ghost texts: seq<seq<byte>>, op: Op)
    returns (after: seq<BasicString>)
    requires Pool(pool, ledger, capacity, texts) && Allowed(texts, op)
    modifies ledger, pool, Locals(pool), Union(Owners(pool))
    ensures Pool(after, ledger, capacity, Step(texts, op))
    ensures fresh(ledger.live - old(ledger.live))
    ensures forall s :: s in after ==> (s in pool && s.sso in Locals(pool)) || (fresh(s) && fresh(s.sso))
  {
    hide Union, Owners, Holds, Split;
    after := pool;
    match op {
      case Append(i, j, from, len) =>
        OwnedIn(pool, i);
        PerformAppend(pool, ledger, capacity, texts, i, j, from, len);
      case AppendText(i, text) =>
        OwnedIn(pool, i);
        PerformAppendText(pool, ledger, capacity, texts, i, text);
      case Assign(i, j) =>
        OwnedIn(pool, i);
        PerformAssign(pool, ledger, capacity, texts, i, j);
      case Move(i, j) =>
        PerformMove(pool, ledger, capacity, texts, i, j);
      case Clear(i) =>
        ClearOne(pool, ledger, capacity, texts, i);
      case New =>
        after := Construct(pool, ledger, capacity, texts);
        assert forall s :: s in after ==> s in after[..|pool|] || s == after[|pool|];
      case Destroy(i) =>
        after := DestroyOne(pool, ledger, capacity, texts, i);
    }
    assert forall s :: s in pool ==> s.sso in Locals(pool) by { LocalsOf(pool); }
  }

  lemma LocalsOf(pool: seq<BasicString>)
    ensures forall s :: s in pool ==> s.sso in Locals(pool)
  {
    forall s | s in pool ensures s.sso in Locals(pool) {
      var k :| 0 <= k < |pool| && pool[k] == s;
      assert Locals(pool)[k] == s.sso;
    }
  }

  /**
  Any program that makes, fills, changes and destroys strings: the texts are those of plain sequences, and at every
  moment the allocator's live buffers are exactly those the strings own, one owner each. Nothing is freed
  twice, and once all strings are destroyed nothing is left.
  */
  method Program(pool: seq<BasicString>, ledger: Ledger, capacity: nat, ghost texts: seq<seq<byte>>, ops: seq<Op>)
    returns (after: seq<BasicString>)
    requires Pool(pool, ledger, capacity, texts) && AllAllowed(texts, ops)
    modifies ledger, pool, Locals(pool), Union(Owners(pool))
    ensures Pool(after, ledger, capacity, Run(texts, ops))
    ensures Run(texts, ops) == [] ==> ledger.live == {}
    decreases |ops|
  {
    hide Owners, Holds, Split;
    after := pool;
    if ops != [] {
      after := Perform(pool, ledger, capacity, texts, ops[0]);
      after := Program(after, ledger, capacity, Step(texts, ops[0]), ops[1..]);
    }
  }
}
