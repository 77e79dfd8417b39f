/** ThreadSafeObservableCollectionEnumerableWrapper<T> and AsLocked: an
    enumerable view whose every enumeration is a lock-holding session. The
    wrapper stores nothing but a reference to its collection; the model has a
    single collection, passed to each call explicitly. */
module LockedEnumerable {
  import opened Base
  import opened RwLocks
  import opened SafeCollection
  import opened SafeEnumerator

  /** The wrapper object (its only field is the collection it enumerates). */
  datatype Wrapper = Wrapper

  /** The wrapper's constructor: it stores the collection and touches no lock. */
  function Construct<T>(c: Collection<T>): (r: Outcome<T, Wrapper>)
    ensures r.Returned? && r.state == c
  {
    Returned(c, Wrapper)
  }

  /** AsLocked: builds the wrapper; enumeration, not this call, takes the lock. */
  function AsLocked<T>(c: Collection<T>): (r: Outcome<T, Wrapper>)
    ensures r.Returned? && r.state == c
  {
    Construct(c)
  }

  /** GetEnumerator: a fresh session on the collection's own lock. */
  function GetEnumerator<T>(c: Collection<T>, w: Wrapper): (r: Outcome<T, Cursor<T>>)
    ensures c.lock.writer ==> r == Blocked(c)
    ensures !c.lock.writer ==> r.Returned? && r.value == Cursor(0, None)
                               && r.state == c.(lock := c.lock.(readers := c.lock.readers + 1))
  {
    Open(c)
  }

  /** The object-typed GetEnumerator: it forwards to the generic one, so it
      too opens a fresh session with one more read acquisition. */
  function GetEnumeratorUntyped<T>(c: Collection<T>, w: Wrapper): (r: Outcome<T, Cursor<T>>)
    ensures c.lock.writer ==> r == Blocked(c)
    ensures !c.lock.writer ==> r.Returned? && r.value == Cursor(0, None)
                               && r.state == c.(lock := c.lock.(readers := c.lock.readers + 1))
  {
    GetEnumerator(c, w)
  }

  /** k enumerations started one after another, none finished yet. */
  function StartSessions<T>(c: Collection<T>, w: Wrapper, k: nat): Outcome<T, seq<Cursor<T>>>
    decreases k
  {
    if k == 0 then Returned(c, [])
    else
      match GetEnumerator(c, w)
      case Returned(d, e) =>
        (match StartSessions(d, w, k - 1)
         case Returned(d', es) => Returned(d', [e] + es)
         case Threw(d', f) => Threw(d', f)
         case Blocked(d') => Blocked(d'))
      case Threw(d, f) => Threw(d, f)
      case Blocked(d) => Blocked(d)
  }

  /** k sessions each disposed once. */
  function EndSessions<T>(c: Collection<T>, k: nat): Outcome<T, ()>
    decreases k
  {
    if k == 0 then Returned(c, ())
    else
      match Dispose(c)
      case Returned(d, _) => EndSessions(d, k - 1)
      case Threw(d, f) => Threw(d, f)
      case Blocked(d) => Blocked(d)
  }

  /** k live enumerators hold exactly k read acquisitions, leave the elements
      alone, and k Disposes give the lock back exactly as it was. */
  lemma {:induction false} SessionsCountReaders<T>(c: Collection<T>, w: Wrapper, k: nat)
    requires !c.lock.writer
    ensures StartSessions(c, w, k).Returned?
    ensures StartSessions(c, w, k).state == c.(lock := c.lock.(readers := c.lock.readers + k))
    ensures |StartSessions(c, w, k).value| == k
    ensures EndSessions(StartSessions(c, w, k).state, k) == Returned(c, ())
    decreases k
  {
    if k > 0 {
      var d := GetEnumerator(c, w).state;
      SessionsCountReaders(d, w, k - 1);
      EndAfterStart(c.(lock := c.lock.(readers := c.lock.readers + k)), k);
    }
  }

  /** Disposing k sessions on a lock with readers + k acquisitions leaves readers. */
  lemma {:induction false} EndAfterStart<T>(c: Collection<T>, k: nat)
    requires c.lock.readers >= k
    ensures EndSessions(c, k) == Returned(c.(lock := c.lock.(readers := c.lock.readers - k)), ())
    decreases k
  {
    if k > 0 {
      EndAfterStart(c.(lock := c.lock.(readers := c.lock.readers - 1)), k - 1);
    }
  }

  /** `foreach (var x in collection.AsLocked())`: open a session, step it to
      the end collecting Current, then Dispose. The result is every element,
      in order, and the lock is left as it was found. */
  method ForEach<T>(c: Collection<T>) returns (r: Outcome<T, seq<T>>)
    ensures c.lock.writer ==> r == Blocked(c)
    ensures !c.lock.writer ==> r == Returned(c, c.items)
  {
    var w := AsLocked(c).value;
    var o := GetEnumerator(c, w);
    if o.Blocked? {
      return Blocked(c);
    }
    var s := o.state;
    var e := o.value;
    var out: seq<T> := [];
    var a := MoveNext(s.items, e);
    while a.moved
      invariant s.items == c.items
      invariant e.index == |out| <= |c.items|
      invariant out == c.items[..|out|]
      invariant a == MoveNext(s.items, e)
      decreases |c.items| - |out|
    {
      assert c.items[..|out| + 1] == c.items[..|out|] + [c.items[|out|]];
      out := out + [Current(a.cursor).value];
      e := a.cursor;
      a := MoveNext(s.items, e);
    }
    assert c.items[..|out|] == c.items;
    var d := Dispose(s);
    return Returned(d.state, out);
  }
}
