/** The marshaling rule of ThreadSafeObservableCollection<T>. The dispatcher
    is reduced to a flag (`hasThreadAccess`: is the caller on the owning
    thread?) and a FIFO queue of posted closures that the owning thread runs
    later, oldest first. Add, Clear, Insert and RemoveAt are fire-and-forget
    off the owning thread; Remove blocks until its closure has run. */
module Marshal {
  import opened Base
  import opened RwLocks
  import opened SafeCollection

  /** RunAsync with a fire-and-forget closure: it joins the end of the queue. */
  function Post<T>(c: Collection<T>, op: Op<T>): (r: Collection<T>)
    ensures r.items == c.items && r.lock == c.lock
    ensures |r.pending| == |c.pending| + 1 && r.pending[..|c.pending|] == c.pending && r.pending[|c.pending|] == op
  {
    c.(pending := c.pending + [op])
  }

  /** The body of a posted closure, as the owning thread runs it. */
  function Exec<T>(c: Collection<T>, op: Op<T>): (r: Outcome<T, ()>)
    ensures !c.lock.IsFree() ==> r == Blocked(c)
    ensures r.state.pending == c.pending
    ensures r.Returned? ==> r.state.lock == c.lock
    ensures r.Threw? ==> r.state.lock == WriteHeld && r.state.items == c.items
  {
    match op
    case AddOp(x) => DoAdd(c, x)
    case ClearOp => DoClear(c)
    case InsertOp(i, x) => DoInsert(c, i, x)
    case RemoveAtOp(i) => DoRemoveAt(c, i)
  }

  /** Add: inline on the owning thread, otherwise posted. */
  function Add<T>(c: Collection<T>, item: T, hasThreadAccess: bool): (r: Outcome<T, ()>)
    ensures hasThreadAccess && c.lock.IsFree() ==> r.Returned? && r.state == c.(items := c.items + [item])
    ensures hasThreadAccess && !c.lock.IsFree() ==> r == Blocked(c)
    ensures !hasThreadAccess ==> r.Returned? && r.state.items == c.items && r.state.lock == c.lock
                                 && r.state.pending == c.pending + [AddOp(item)]
  {
    if hasThreadAccess then DoAdd(c, item) else Returned(Post(c, AddOp(item)), ())
  }

  /** Clear: inline on the owning thread, otherwise posted. */
  function Clear<T>(c: Collection<T>, hasThreadAccess: bool): (r: Outcome<T, ()>)
    ensures hasThreadAccess && c.lock.IsFree() ==> r.Returned? && r.state == c.(items := [])
    ensures hasThreadAccess && !c.lock.IsFree() ==> r == Blocked(c)
    ensures !hasThreadAccess ==> r.Returned? && r.state.items == c.items && r.state.lock == c.lock
                                 && r.state.pending == c.pending + [ClearOp]
  {
    if hasThreadAccess then DoClear(c) else Returned(Post(c, ClearOp), ())
  }

  /** Insert: inline on the owning thread, otherwise posted; a bad index only
      surfaces when the closure runs. */
  function Insert<T>(c: Collection<T>, index: int, item: T, hasThreadAccess: bool): (r: Outcome<T, ()>)
    ensures hasThreadAccess && c.lock.IsFree() && 0 <= index <= |c.items| ==>
              r.Returned? && r.state == c.(items := c.items[..index] + [item] + c.items[index..])
    ensures hasThreadAccess && c.lock.IsFree() && !(0 <= index <= |c.items|) ==>
              r == Threw(c.(lock := WriteHeld), ArgumentOutOfRange)
    ensures hasThreadAccess && !c.lock.IsFree() ==> r == Blocked(c)
    ensures !hasThreadAccess ==> r.Returned? && r.state.items == c.items && r.state.lock == c.lock
                                 && r.state.pending == c.pending + [InsertOp(index, item)]
  {
    if hasThreadAccess then DoInsert(c, index, item) else Returned(Post(c, InsertOp(index, item)), ())
  }

  /** RemoveAt: inline on the owning thread, otherwise posted. */
  function RemoveAt<T>(c: Collection<T>, index: int, hasThreadAccess: bool): (r: Outcome<T, ()>)
    ensures hasThreadAccess && c.lock.IsFree() && index >= |c.items| ==> r == Returned(c, ())
    ensures hasThreadAccess && c.lock.IsFree() && |c.items| == 0 ==> r == Returned(c, ())
    ensures hasThreadAccess && c.lock.IsFree() && index < 0 && |c.items| > 0 ==>
              r == Threw(c.(lock := WriteHeld), ArgumentOutOfRange)
    ensures hasThreadAccess && c.lock.IsFree() && 0 <= index < |c.items| ==>
              r.Returned? && r.state == c.(items := c.items[..index] + c.items[index + 1..])
    ensures hasThreadAccess && !c.lock.IsFree() ==> r == Blocked(c)
    ensures !hasThreadAccess ==> r.Returned? && r.state.items == c.items && r.state.lock == c.lock
                                 && r.state.pending == c.pending + [RemoveAtOp(index)]
  {
    if hasThreadAccess then DoRemoveAt(c, index) else Returned(Post(c, RemoveAtOp(index)), ())
  }

  /** The fire-and-forget calls as one entry point: the public call named by `op`. */
  function Submit<T>(c: Collection<T>, op: Op<T>, hasThreadAccess: bool): (r: Outcome<T, ()>)
    ensures hasThreadAccess ==> r == Exec(c, op)
    ensures !hasThreadAccess ==> r == Returned(Post(c, op), ())
  {
    match op
    case AddOp(x) => Add(c, x, hasThreadAccess)
    case ClearOp => Clear(c, hasThreadAccess)
    case InsertOp(i, x) => Insert(c, i, x, hasThreadAccess)
    case RemoveAtOp(i) => RemoveAt(c, i, hasThreadAccess)
  }

  /** The owning thread runs the oldest posted closure. If it cannot take the
      lock it waits and the closure stays queued. When it can, the closure has
      exactly the effect of making the same call inline on the owning thread. */
  function Pump<T>(c: Collection<T>): (r: Outcome<T, ()>)
    ensures c.pending == [] ==> r == Returned(c, ())
    ensures c.pending != [] && !c.lock.IsFree() ==> r == Blocked(c)
    ensures c.pending != [] && !r.Blocked? ==> r.state.pending == c.pending[1..]
    ensures r.Returned? ==> r.state.lock == c.lock
    ensures c.pending != [] && c.lock.IsFree() ==>
              r == Submit(c.(pending := c.pending[1..]), c.pending[0], true)
  {
    if c.pending == [] then Returned(c, ())
    else
      var r := Exec(c.(pending := c.pending[1..]), c.pending[0]);
      if r.Blocked? then Blocked(c) else r
  }

  /** The owning thread runs every posted closure in order, stopping at one
      that throws or cannot take the lock. */
  function Drain<T>(c: Collection<T>): (r: Outcome<T, ()>)
    ensures r.Returned? ==> r.state.pending == [] && r.state.lock == c.lock
    ensures c.pending == [] ==> r == Returned(c, ())
    ensures c.pending != [] && !c.lock.IsFree() ==> r == Blocked(c)
    decreases |c.pending|
  {
    if c.pending == [] then Returned(c, ())
    else
      match Pump(c)
      case Returned(d, _) => Drain(d)
      case Threw(d, f) => Threw(d, f)
      case Blocked(d) => Blocked(d)
  }

  /** Remove. On the owning thread it runs inline. Elsewhere the caller posts
      the closure and waits for it; the closures posted before it run first.
      `ran` says whether the dispatcher ran the closure at all: if it did not,
      the captured result stays null and the call returns false. */
  function Remove<T(==)>(c: Collection<T>, item: T, hasThreadAccess: bool, ran: bool): (r: Outcome<T, bool>)
    ensures hasThreadAccess ==> r == DoRemove(c, item)
    ensures !hasThreadAccess && !ran ==> r == Returned(c, false)
    ensures !hasThreadAccess && ran && Drain(c).Returned? ==> r == DoRemove(Drain(c).state, item)
    ensures !hasThreadAccess && ran && !Drain(c).Returned? ==> !r.Returned? && r.state == Drain(c).state
    ensures r.Returned? ==> r.state.lock == c.lock
  {
    if hasThreadAccess then DoRemove(c, item)
    else if !ran then Returned(c, false)
    else
      match Drain(c)
      case Returned(d, _) => DoRemove(d, item)
      case Threw(d, f) => Threw(d, f)
      case Blocked(d) => Blocked(d)
  }

  /** Reference semantics: the ops run one after another on the owning
      thread, stopping at the first that does not return normally. */
  function RunInline<T>(c: Collection<T>, ops: seq<Op<T>>): (r: Outcome<T, ()>)
    ensures r.state.pending == c.pending
    ensures r.Returned? ==> r.state.lock == c.lock
    decreases |ops|
  {
    if ops == [] then Returned(c, ())
    else
      match Exec(c, ops[0])
      case Returned(d, _) => RunInline(d, ops[1..])
      case Threw(d, f) => Threw(d, f)
      case Blocked(d) => Blocked(d)
  }

  /** A caller issues the ops one after another through the public calls. */
  function SubmitAll<T>(c: Collection<T>, ops: seq<Op<T>>, hasThreadAccess: bool): Outcome<T, ()>
    decreases |ops|
  {
    if ops == [] then Returned(c, ())
    else
      match Submit(c, ops[0], hasThreadAccess)
      case Returned(d, _) => SubmitAll(d, ops[1..], hasThreadAccess)
      case Threw(d, f) => Threw(d, f)
      case Blocked(d) => Blocked(d)
  }

  /** Two outcomes agree on everything but the queue. */
  ghost predicate SameEffect<T>(a: Outcome<T, ()>, b: Outcome<T, ()>) {
    && a.Returned? == b.Returned?
    && a.Threw? == b.Threw?
    && (a.Threw? ==> a.fault == b.fault)
    && a.state.items == b.state.items
    && a.state.lock == b.state.lock
  }

  /** Running an op does not depend on, and does not change, the queue. */
  lemma ExecIgnoresQueue<T>(c: Collection<T>, op: Op<T>, q: seq<Op<T>>)
    ensures Exec(c.(pending := q), op) == match Exec(c, op)
      case Returned(d, v) => Returned(d.(pending := q), v)
      case Threw(d, f) => Threw(d.(pending := q), f)
      case Blocked(d) => Blocked(d.(pending := q))
  {
  }

  /** Draining a queue of ops has the effect of running the same ops inline,
      in the same order. */
  lemma {:induction false} DrainIsInline<T>(c: Collection<T>, ops: seq<Op<T>>)
    ensures SameEffect(Drain(c.(pending := ops)), RunInline(c.(pending := []), ops))
    decreases |ops|
  {
    if ops != [] {
      var q := c.(pending := ops);
      ExecIgnoresQueue(q.(pending := []), ops[0], ops[1..]);
      var e := Exec(c.(pending := []), ops[0]);
      match e
      case Returned(d, _) =>
        assert Pump(q) == Returned(d.(pending := ops[1..]), ());
        DrainIsInline(d, ops[1..]);
        assert d.(pending := ops[1..]).(pending := []) == d;
      case Threw(d, f) =>
      case Blocked(d) =>
    }
  }

  /** Off the owning thread, every fire-and-forget call only queues its op. */
  lemma {:induction false} OffThreadOnlyQueues<T>(c: Collection<T>, ops: seq<Op<T>>)
    ensures SubmitAll(c, ops, false) == Returned(c.(pending := c.pending + ops), ())
    decreases |ops|
  {
    if ops != [] {
      OffThreadOnlyQueues(Post(c, ops[0]), ops[1..]);
      assert c.pending + [ops[0]] + ops[1..] == c.pending + ops;
    }
  }

  /** On the owning thread, the fire-and-forget calls are the inline reference. */
  lemma {:induction false} OnThreadIsInline<T>(c: Collection<T>, ops: seq<Op<T>>)
    ensures SubmitAll(c, ops, true) == RunInline(c, ops)
    decreases |ops|
  {
    if ops != [] {
      match Exec(c, ops[0])
      case Returned(d, _) => OnThreadIsInline(d, ops[1..]);
      case Threw(d, f) =>
      case Blocked(d) =>
    }
  }

  /** Marshaling preserves meaning: issuing calls off the owning thread and
      letting the dispatcher drain them has the effect of issuing the same
      calls on the owning thread in the same order. */
  lemma MarshaledEqualsInline<T>(c: Collection<T>, ops: seq<Op<T>>)
    requires c.pending == []
    ensures SubmitAll(c, ops, false).Returned?
    ensures SameEffect(Drain(SubmitAll(c, ops, false).state), SubmitAll(c, ops, true))
  {
    OffThreadOnlyQueues(c, ops);
    assert c.pending + ops == ops;
    DrainIsInline(c, ops);
    assert c.(pending := ops).(pending := []) == c;
    OnThreadIsInline(c, ops);
  }

  /** A state-changing request any thread may make while the collection is in use. */
  datatype Request<T> =
    | Call(op: Op<T>)           // Add, Clear, Insert or RemoveAt
    | RemoveCall(item: T)       // Remove
    | SetCall(index: int, value: T)  // the indexer setter
    | PumpCall                  // the owning thread runs the oldest posted closure

  /** The state a request leaves behind, whatever its outcome. */
  function Perform<T(==)>(c: Collection<T>, q: Request<T>, hasThreadAccess: bool, ran: bool): Collection<T> {
    match q
    case Call(op) => Submit(c, op, hasThreadAccess).state
    case RemoveCall(x) => Remove(c, x, hasThreadAccess, ran).state
    case SetCall(i, v) => SetItem(c, i, v).state
    case PumpCall => Pump(c).state
  }

  /** While any read acquisition is outstanding, no mutation request (Add,
      Clear, Insert, RemoveAt, Remove, the indexer setter, or a dispatcher
      step) from any thread changes the elements or the lock. Reads are not
      requests: they may add read acquisitions of their own. */
  lemma ReadersExcludeWriters<T>(c: Collection<T>, q: Request<T>, hasThreadAccess: bool, ran: bool)
    requires c.lock.readers > 0
    ensures Perform(c, q, hasThreadAccess, ran).items == c.items
    ensures Perform(c, q, hasThreadAccess, ran).lock == c.lock
  {
  }
}
