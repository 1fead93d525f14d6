/** The storage request queue: requests are queued by reference, and one object may be queued many times. */
module RequestQueue {

  datatype Status = Success | InvalidParameters | Failed(code: nat)

  // ----- first occurrences -----

  /** The elements of `q` that are not in `done`, each at its first occurrence. */
  function Fresh<T(==)>(q: seq<T>, done: set<T>): seq<T>
  {
    if q == [] then []
    else if q[0] in done then Fresh(q[1..], done)
    else [q[0]] + Fresh(q[1..], done + {q[0]})
  }

  /** The position of the first occurrence of `x`. */
  function FirstIndex<T(==)>(q: seq<T>, x: T): (i: nat)
    requires x in q
    ensures i < |q| && q[i] == x && x !in q[..i]
  {
    if q[0] == x then 0 else FirstIndex(q[1..], x) + 1
  }

  lemma {:induction false} FreshMembers<T>(q: seq<T>, done: set<T>, x: T)
    ensures x in Fresh(q, done) <==> x in q && x !in done
  {
    if q != [] {
      FreshMembers(q[1..], if q[0] in done then done else done + {q[0]}, x);
      assert x in q <==> x == q[0] || x in q[1..];
    }
  }

  /** No element is listed twice, and the list follows the order of first occurrence. */
  lemma {:induction false} FreshInOrder<T>(q: seq<T>, done: set<T>, i: nat, j: nat)
    requires i < j < |Fresh(q, done)|
    ensures var (x, y) := (Fresh(q, done)[i], Fresh(q, done)[j]);
      x != y && x in q && y in q && FirstIndex(q, x) < FirstIndex(q, y)
  {
    var x, y := Fresh(q, done)[i], Fresh(q, done)[j];
    FreshMembers(q, done, x);
    FreshMembers(q, done, y);
    if q[0] in done {
      FreshInOrder(q[1..], done, i, j);
    } else {
      var done' := done + {q[0]};
      assert Fresh(q, done)[j] == Fresh(q[1..], done')[j - 1];
      FreshMembers(q[1..], done', y);
      if i > 0 {
        FreshMembers(q[1..], done', x);
        FreshInOrder(q[1..], done', i - 1, j - 1);
      }
    }
  }

  // ----- the driver -----

  class Request {
    const deviceHandle: nat
    var status: Status
    var completed: bool

    constructor (deviceHandle: nat)
      ensures this.deviceHandle == deviceHandle && status == Success && !completed
    {
      this.deviceHandle := deviceHandle;
      status, completed := Success, false;
    }
  }

  /** One hand-over to a device: what its `submit_fn` and, after success, its `process_fn` returned. */
  datatype Dispatch = Dispatch(request: Request, submitted: Status, processed: Status) {
    function Outcome(): Status { if submitted == Success then processed else submitted }
  }

  function Requests(ds: seq<Dispatch>): (rs: seq<Request>)
    ensures |rs| == |ds| && forall i :: 0 <= i < |ds| ==> rs[i] == ds[i].request
  {
    seq(|ds|, i requires 0 <= i < |ds| => ds[i].request)
  }

  function Valid(rs: seq<Request?>, devices: nat): seq<Request>
  {
    if rs == [] then []
    else
      var rest := Valid(rs[1..], devices);
      if rs[0] != null && rs[0].deviceHandle < devices then [rs[0]] + rest else rest
  }

  class Gaossd {
    var deviceCount: nat
    var queue: seq<Request?>
    ghost var dispatched: seq<Dispatch>

    constructor (deviceCount: nat)
      ensures this.deviceCount == deviceCount && queue == [] && dispatched == []
    {
      this.deviceCount, queue, dispatched := deviceCount, [], [];
    }

    /** `submit_request`. */
    method SubmitRequest(request: Request) returns (r: Status)
      modifies this`queue
      ensures r == if request.deviceHandle < deviceCount then Success else InvalidParameters
      ensures queue == if r == Success then old(queue) + [request] else old(queue)
    {
      if request.deviceHandle >= deviceCount {
        return InvalidParameters;
      }
      queue := queue + [request];
      return Success;
    }

    /** The queued requests that need nothing more, and null. */
    ghost function Done(): set<Request?>
      reads this, queue
    {
      {null} + set r | r in queue && r != null && r.completed
    }

    /** The device's `submit_fn` and `process_fn`, which may report anything. */
    method HandOver(request: Request) returns (ghost d: Dispatch)
      modifies request`status, this`dispatched
      ensures dispatched == old(dispatched) + [d]
      ensures d.request == request && request.status == d.Outcome()
    {
      var submitted: Status := *;
      var processed: Status := *;
      request.status := submitted;
      if request.status == Success {
        request.status := processed;
      }
      d := Dispatch(request, submitted, processed);
      dispatched := dispatched + [d];
    }

    /** One round of `process_queue`; `ds` is what it hands over. */
    method Process(request: Request?) returns (ghost ds: seq<Dispatch>)
      modifies request, this`dispatched
      ensures dispatched == old(dispatched) + ds
      ensures request == null || old(request.completed) ==> ds == []
      ensures request != null && old(request.completed) ==> request.status == old(request.status)
      ensures request != null ==> request.completed
      ensures request != null && !old(request.completed) ==>
        if request.deviceHandle < deviceCount
        then |ds| == 1 && ds[0].request == request && request.status == ds[0].Outcome()
        else ds == [] && request.status == InvalidParameters
    {
      ds := [];
      if request == null || request.completed {
        return;
      }
      if request.deviceHandle >= deviceCount {
        request.status := InvalidParameters;
      } else {
        ghost var d := HandOver(request);
        ds := [d];
      }
      request.completed := true;
    }

    /**
    `process_queue`: every distinct request that was not completed and has a valid handle is handed over
    exactly once, in the order of first submission; every queued request ends completed with the outcome
    of its hand-over, or as invalid; and the queue ends empty.
    */
    method ProcessQueue() returns (r: Status)
      modifies this`queue, this`dispatched, queue
      ensures r == Success && queue == [] && deviceCount == old(deviceCount)
      ensures old(dispatched) <= dispatched
      ensures Requests(dispatched[|old(dispatched)|..]) == Valid(Fresh(old(queue), old(Done())), deviceCount)
      ensures forall q :: q in old(queue) && q != null ==> q.completed
      ensures forall q :: q in old(queue) && q != null && old(q.completed) ==> q.status == old(q.status)
      ensures forall q :: q in old(queue) && q != null && !old(q.completed) && q.deviceHandle >= deviceCount ==>
        q.status == InvalidParameters
      ensures forall i :: |old(dispatched)| <= i < |dispatched| ==>
        var d := dispatched[i];
        d.request.status == if d.submitted == Success then d.processed else d.submitted
    {
      var i := 0;
      ghost var done, sent: seq<Dispatch> := Done(), [];
      assert queue[0..] == queue && Requests([]) == [];
      assert [] + Valid(Fresh(queue, done), deviceCount) == Valid(Fresh(queue, done), deviceCount);
      NothingLeft(deviceCount);
      hide Fresh, Valid, Requests;
      while i < |queue|
        invariant 0 <= i <= |queue| && queue == old(queue) && deviceCount == old(deviceCount) && null in done
        invariant dispatched == old(dispatched) + sent
        invariant forall q :: q in queue ==> (q in done <==> q == null || q.completed)
        invariant forall k :: 0 <= k < i ==> queue[k] in done
        invariant Requests(sent) + Valid(Fresh(queue[i..], done), deviceCount)
               == Valid(Fresh(queue, old(Done())), deviceCount)
        invariant forall q :: q in old(queue) && q != null && old(q.completed) ==>
          q.completed && q.status == old(q.status)
        invariant forall q :: q in old(queue) && q != null && !old(q.completed) ==>
          (q in done && q.deviceHandle >= deviceCount ==> q.status == InvalidParameters)
        invariant forall k :: 0 <= k < |sent| ==>
          sent[k].request in queue && sent[k].request in done && sent[k].request.status == sent[k].Outcome()
      {
        ValidStep(queue, i, done, deviceCount);
        ghost var left := Valid(Fresh(queue[i + 1..], done + {queue[i]}), deviceCount);
        ghost var ds := Process(queue[i]);
        done := done + {queue[i]};
        RequestsAppend(sent, ds);
        OneRequest(ds);
        Regroup(Requests(sent), Requests(ds), left);
        sent := sent + ds;
        i := i + 1;
      }
      assert queue[i..] == [];
      assert Fresh<Request?>([], done) == [] by { NothingFresh(done); }
      assert Requests(sent) + [] == Requests(sent) && dispatched[|old(dispatched)|..] == sent;
      queue := [];
      return Success;
    }
  }

  lemma NothingFresh(done: set<Request?>)
    ensures Fresh<Request?>([], done) == []
  {}

  lemma NothingLeft(devices: nat)
    ensures Valid([], devices) == []
  {}

  lemma RequestsAppend(a: seq<Dispatch>, b: seq<Dispatch>)
    ensures Requests(a + b) == Requests(a) + Requests(b)
  {}

  lemma OneRequest(ds: seq<Dispatch>)
    requires |ds| <= 1
    ensures Requests(ds) == if ds == [] then [] else [ds[0].request]
  {}

  lemma Regroup<T>(a: seq<T>, b: seq<T>, c: seq<T>)
    ensures a + (b + c) == (a + b) + c
  {}

  /** What the `i`-th queue entry contributes. */
  lemma ValidStep(q: seq<Request?>, i: nat, done: set<Request?>, devices: nat)
    requires i < |q| && null in done
    ensures Valid(Fresh(q[i..], done), devices) ==
      (if q[i] in done || q[i].deviceHandle >= devices then [] else [q[i]])
      + Valid(Fresh(q[i + 1..], done + {q[i]}), devices)
  {
    assert q[i..][1..] == q[i + 1..];
    var rest := Fresh(q[i + 1..], done + {q[i]});
    if q[i] in done {
      assert done + {q[i]} == done;
    } else {
      assert Fresh(q[i..], done) == [q[i]] + rest;
      assert ([q[i]] + rest)[1..] == rest;
    }
  }
}
