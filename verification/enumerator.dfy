/** SafeReaderWriterEnumerator<T>: an iteration session that takes one read
    acquisition of the collection's lock when it is constructed and gives it
    back in Dispose. Stepping is delegated to the base collection's own
    List<T> enumerator, which reads the live elements. */
module SafeEnumerator {
  import opened Base
  import opened RwLocks
  import opened SafeCollection
  import Marshal

  /** The inner List<T> enumerator: the number of elements it has passed
      (Count+1 once it has run off the end) and the value Current reports
      (None stands for default(T) before the first and after the last step). */
  datatype Cursor<T> = Cursor(index: nat, current: Option<T>)

  /** A MoveNext step: the new cursor and whether an element was reached. */
  datatype Advance<T> = Advance(cursor: Cursor<T>, moved: bool)

  /** The constructor: EnterReadLock, then the base collection's enumerator,
      positioned before the first element. */
  function Open<T>(c: Collection<T>): (r: Outcome<T, Cursor<T>>)
    ensures c.lock.writer ==> r == Blocked(c)
    ensures !c.lock.writer ==> r.Returned? && r.value == Cursor(0, None)
                               && r.state == c.(lock := c.lock.(readers := c.lock.readers + 1))
  {
    match EnterRead(c.lock)
    case None => Blocked(c)
    case Some(held) => Returned(c.(lock := held), Cursor(0, None))
  }

  /** Dispose: ExitReadLock (disposing the List<T> enumerator does nothing).
      With no read acquisition outstanding it throws. */
  function Dispose<T>(c: Collection<T>): (r: Outcome<T, ()>)
    ensures c.lock.readers > 0 ==> r.Returned? && r.state == c.(lock := c.lock.(readers := c.lock.readers - 1))
    ensures c.lock.readers == 0 ==> r == Threw(c, SynchronizationLock)
  {
    match ExitRead(c.lock)
    case None => Threw(c, SynchronizationLock)
    case Some(released) => Returned(c.(lock := released), ())
  }

  /** MoveNext, delegated to List<T>.Enumerator: it sees only the elements,
      never the lock. */
  function MoveNext<T>(items: seq<T>, e: Cursor<T>): (r: Advance<T>)
    ensures r.moved <==> e.index < |items|
    ensures r.moved ==> r.cursor.index == e.index + 1 && r.cursor.current == Some(items[e.index])
    ensures !r.moved ==> r.cursor.index == |items| + 1 && r.cursor.current.None?
  {
    if e.index < |items| then Advance(Cursor(e.index + 1, Some(items[e.index])), true)
    else Advance(Cursor(|items| + 1, None), false)
  }

  /** Reset, delegated: back before the first element. */
  function Reset<T>(e: Cursor<T>): (r: Cursor<T>)
    ensures r.index == 0 && r.current.None?
  {
    Cursor(0, None)
  }

  /** Current (both the generic and the object-typed property), delegated:
      the element the cursor last passed, None before the first MoveNext and
      after the end. */
  function Current<T>(e: Cursor<T>): (r: Option<T>)
    ensures r == e.current
  {
    e.current
  }

  /** After a step, Current is the element just passed, or nothing at the end. */
  lemma CurrentAfterMoveNext<T>(items: seq<T>, e: Cursor<T>)
    ensures MoveNext(items, e).moved ==> Current(MoveNext(items, e).cursor) == Some(items[e.index])
    ensures !MoveNext(items, e).moved ==> Current(MoveNext(items, e).cursor) == None
    ensures Reset(MoveNext(items, e).cursor) == Reset(e)
  {
  }

  /** An open session followed by its Dispose leaves the lock as it found it. */
  lemma OpenThenDispose<T>(c: Collection<T>)
    requires !c.lock.writer
    ensures Dispose(Open(c).state) == Returned(c, ())
  {
  }

  /** How far a cursor has got, counted in elements of a collection of size n. */
  function Passed<T>(e: Cursor<T>, n: nat): (k: nat)
    ensures k <= n
  {
    if e.index < n then e.index else n
  }

  /** One thing that can happen while a session is open: the session's owner
      steps the enumerator, or some thread makes a request of the collection. */
  datatype Event<T> =
    | Next
    | Other(q: Marshal.Request<T>, hasThreadAccess: bool, ran: bool)

  /** Where a run of events ends, and the elements the session yielded. */
  datatype Trace<T> = Trace(state: Collection<T>, cursor: Cursor<T>, yielded: seq<T>)

  function Run<T(==)>(c: Collection<T>, e: Cursor<T>, events: seq<Event<T>>): Trace<T>
    decreases |events|
  {
    if events == [] then Trace(c, e, [])
    else
      match events[0]
      case Next =>
        var a := MoveNext(c.items, e);
        var t := Run(c, a.cursor, events[1..]);
        Trace(t.state, t.cursor, (if a.moved then [c.items[e.index]] else []) + t.yielded)
      case Other(q, h, ran) => Run(Marshal.Perform(c, q, h, ran), e, events[1..])
  }

  /** While the session holds its read acquisition, mutation requests from
      other threads (Marshal.Request) change neither the elements nor the
      lock, so the session yields
      the consecutive elements between where its cursor started and ended. */
  lemma {:induction false} RunIsolated<T>(c: Collection<T>, e: Cursor<T>, events: seq<Event<T>>)
    requires c.lock.readers > 0
    ensures Run(c, e, events).state.items == c.items
    ensures Run(c, e, events).state.lock == c.lock
    ensures Passed(e, |c.items|) <= Passed(Run(c, e, events).cursor, |c.items|)
    ensures Run(c, e, events).yielded == c.items[Passed(e, |c.items|)..Passed(Run(c, e, events).cursor, |c.items|)]
    ensures e.index > |c.items| ==> Run(c, e, events).cursor.index > |c.items|
    decreases |events|
  {
    if events != [] {
      match events[0]
      case Next =>
        var a := MoveNext(c.items, e);
        RunIsolated(c, a.cursor, events[1..]);
        if a.moved {
          var n := |c.items|;
          var t := Run(c, a.cursor, events[1..]);
          assert c.items[e.index..Passed(t.cursor, n)] == [c.items[e.index]] + c.items[e.index + 1..Passed(t.cursor, n)];
        }
      case Other(q, h, ran) =>
        Marshal.ReadersExcludeWriters(c, q, h, ran);
        RunIsolated(Marshal.Perform(c, q, h, ran), e, events[1..]);
    }
  }

  /** A session opened on the collection yields, under any interleaving of
      other threads' requests, a prefix of the elements present when it was
      opened, and all of them once MoveNext has reported the end. */
  lemma SessionSeesSnapshot<T>(c: Collection<T>, events: seq<Event<T>>)
    requires !c.lock.writer
    ensures Run(Open(c).state, Open(c).value, events).state.items == c.items
    ensures Run(Open(c).state, Open(c).value, events).state.lock == Open(c).state.lock
    ensures var t := Run(Open(c).state, Open(c).value, events);
            t.yielded == c.items[..Passed(t.cursor, |c.items|)]
            && (t.cursor.index > |c.items| ==> t.yielded == c.items)
  {
    RunIsolated(Open(c).state, Open(c).value, events);
  }

  /** Reset inside a session starts the traversal over: whatever the cursor
      had passed, the session again yields the elements from the first one. */
  lemma ResetRestarts<T>(c: Collection<T>, e: Cursor<T>, events: seq<Event<T>>)
    requires c.lock.readers > 0
    ensures var t := Run(c, Reset(e), events);
            t.yielded == c.items[..Passed(t.cursor, |c.items|)]
            && (t.cursor.index > |c.items| ==> t.yielded == c.items)
  {
    RunIsolated(c, Reset(e), events);
  }
}
