/** ThreadSafeObservableCollection<T>: an ordered sequence guarded by one
    reader/writer lock. Every member below is the locked body of one public
    operation (the part that runs on the thread that owns the collection);
    the choice between running it inline or posting it to that thread is
    in module Marshal. The lock regions are modelled as the source writes
    them: EnterXLock, the base call, ExitXLock, with no try/finally, so an
    exception from the base call leaves the lock held. */
module SafeCollection {
  import opened Base
  import opened RwLocks
  import BaseList

  /** A mutation posted to the owning thread by a caller that is not on it
      (the closures given to RunAsync). */
  datatype Op<T> =
    | AddOp(item: T)
    | ClearOp
    | InsertOp(index: int, item: T)
    | RemoveAtOp(index: int)

  /** The collection's state: its elements, its lock and the closures posted
      to its dispatcher that have not run yet, oldest first. */
  datatype Collection<T> = Collection(items: seq<T>, lock: RwLock, pending: seq<Op<T>>)

  /** What a call does: it returns a value, raises an exception (the state it
      leaves behind still counts, a held lock included), or cannot acquire
      the lock and waits, in which case nothing has happened. */
  datatype Outcome<T, R> =
    | Returned(state: Collection<T>, value: R)
    | Threw(state: Collection<T>, fault: Fault)
    | Blocked(state: Collection<T>)

  /** The write lock held by the caller in the middle of a write region. */
  const WriteHeld: RwLock := RwLock(0, true)

  /** EnterWriteLock; base call; ExitWriteLock. A faulting base call skips the release. */
  function WriteLocked<T, R>(c: Collection<T>, body: BaseList.Res<T, R>): (r: Outcome<T, R>)
    ensures r.Blocked? <==> !c.lock.IsFree()
    ensures r.Blocked? ==> r.state == c
    ensures r.Returned? <==> c.lock.IsFree() && body.Ok?
    ensures r.Returned? ==> r.state == c.(items := body.items) && r.value == body.value
    ensures r.Threw? ==> r.state == c.(lock := WriteHeld) && r.fault == body.fault
  {
    match EnterWrite(c.lock)
    case None => Blocked(c)
    case Some(held) =>
      match body
      case Ok(items, v) => Returned(c.(items := items, lock := ExitWrite(held).value), v)
      case Fail(f) => Threw(c.(lock := held), f)
  }

  /** EnterReadLock; base call; ExitReadLock. A faulting base call skips the
      release, so the read acquisition stays counted. */
  function ReadLocked<T, R>(c: Collection<T>, body: BaseList.Res<T, R>): (r: Outcome<T, R>)
    ensures r.Blocked? <==> c.lock.writer
    ensures r.Blocked? ==> r.state == c
    ensures r.Returned? <==> !c.lock.writer && body.Ok?
    ensures r.Returned? ==> r.state == c && r.value == body.value
    ensures r.Threw? ==> r.state == c.(lock := c.lock.(readers := c.lock.readers + 1)) && r.fault == body.fault
  {
    match EnterRead(c.lock)
    case None => Blocked(c)
    case Some(held) =>
      match body
      case Ok(_, v) => Returned(c.(lock := ExitRead(held).value), v)
      case Fail(f) => Threw(c.(lock := held), f)
  }

  /** The constructor: copies the given collection element by element, or
      starts empty when it is null. No lock is taken and nothing is pending. */
  method New<T>(source: Option<seq<T>>) returns (c: Collection<T>)
    ensures source.Some? ==> c.items == source.value
    ensures source.None? ==> c.items == []
    ensures c.lock == Free && c.pending == []
  {
    c := Collection([], Free, []);
    if source.Some? {
      var i := 0;
      while i < |source.value|
        invariant 0 <= i <= |source.value|
        invariant c == Collection(source.value[..i], Free, [])
      {
        c := c.(items := c.items + [source.value[i]]);
        assert source.value[..i + 1] == source.value[..i] + [source.value[i]];
        i := i + 1;
      }
      assert source.value[..i] == source.value;
    }
  }

  /** DoAdd: the item is appended; the lock ends as it started. */
  function DoAdd<T>(c: Collection<T>, item: T): (r: Outcome<T, ()>)
    ensures !c.lock.IsFree() ==> r == Blocked(c)
    ensures c.lock.IsFree() ==> r.Returned? && r.state == c.(items := c.items + [item])
  {
    WriteLocked(c, BaseList.Append(c.items, item))
  }

  /** DoClear: every element is removed; the lock ends as it started. */
  function DoClear<T>(c: Collection<T>): (r: Outcome<T, ()>)
    ensures !c.lock.IsFree() ==> r == Blocked(c)
    ensures c.lock.IsFree() ==> r.Returned? && r.state == c.(items := [])
  {
    WriteLocked(c, BaseList.Ok([], ()))
  }

  /** Contains: read-only membership test. */
  function Contains<T(==)>(c: Collection<T>, item: T): (r: Outcome<T, bool>)
    ensures c.lock.writer ==> r == Blocked(c)
    ensures !c.lock.writer ==> r.Returned? && r.state == c && (r.value <==> item in c.items)
  {
    ReadLocked(c, BaseList.Ok(c.items, item in c.items))
  }

  /** CopyTo: takes the WRITE lock (not a read lock) around the copy. When the
      copy fails the exception escapes with the write lock still held. */
  function CopyTo<T>(c: Collection<T>, dest: Option<seq<T>>, at: int): (r: Outcome<T, seq<T>>)
    ensures !c.lock.IsFree() ==> r == Blocked(c)
    ensures c.lock.IsFree() && dest.Some? && 0 <= at && at + |c.items| <= |dest.value| ==>
              r.Returned? && r.state == c && |r.value| == |dest.value|
              && r.value[at..at + |c.items|] == c.items
              && r.value[..at] == dest.value[..at]
              && r.value[at + |c.items|..] == dest.value[at + |c.items|..]
    ensures c.lock.IsFree() && !(dest.Some? && 0 <= at && at + |c.items| <= |dest.value|) ==>
              r.Threw? && r.state == c.(lock := WriteHeld)
    ensures r.Threw? && dest.None? ==> r.fault == ArgumentNull
    ensures r.Threw? && dest.Some? && at < 0 ==> r.fault == ArgumentOutOfRange
    ensures r.Threw? && dest.Some? && 0 <= at ==> r.fault == Argument
  {
    WriteLocked(c, BaseList.CopyTo(c.items, dest, at))
  }

  /** Count: read-only length. */
  function Count<T>(c: Collection<T>): (r: Outcome<T, int>)
    ensures c.lock.writer ==> r == Blocked(c)
    ensures !c.lock.writer ==> r.Returned? && r.state == c && r.value == |c.items|
  {
    ReadLocked(c, BaseList.Ok(c.items, |c.items|))
  }

  /** DoRemove: removes the first element equal to the item, and reports
      whether there was one; otherwise nothing changes. */
  function DoRemove<T(==)>(c: Collection<T>, item: T): (r: Outcome<T, bool>)
    ensures !c.lock.IsFree() ==> r == Blocked(c)
    ensures c.lock.IsFree() ==> r.Returned? && r.state.lock == c.lock && r.state.pending == c.pending
    ensures r.Returned? ==> (r.value <==> item in c.items)
    ensures r.Returned? && !r.value ==> r.state == c
    ensures r.Returned? && r.value ==>
              exists k :: 0 <= k < |c.items| && c.items[k] == item && item !in c.items[..k]
                          && r.state.items == c.items[..k] + c.items[k + 1..]
  {
    WriteLocked(c, BaseList.Remove(c.items, item))
  }

  /** IndexOf: read-only; the first matching position, or -1. */
  function IndexOf<T(==)>(c: Collection<T>, item: T): (r: Outcome<T, int>)
    ensures c.lock.writer ==> r == Blocked(c)
    ensures !c.lock.writer ==> r.Returned? && r.state == c && -1 <= r.value < |c.items|
    ensures r.Returned? ==> (r.value == -1 <==> item !in c.items)
    ensures r.Returned? && r.value >= 0 ==> c.items[r.value] == item && forall j :: 0 <= j < r.value ==> c.items[j] != item
  {
    ReadLocked(c, BaseList.Ok(c.items, BaseList.IndexOf(c.items, item)))
  }

  /** DoInsert: shifts the suffix up by one. An index outside 0..Count is not
      guarded: the base call throws with the write lock held. */
  function DoInsert<T>(c: Collection<T>, index: int, item: T): (r: Outcome<T, ()>)
    ensures !c.lock.IsFree() ==> r == Blocked(c)
    ensures c.lock.IsFree() && 0 <= index <= |c.items| ==>
              r.Returned? && r.state == c.(items := c.items[..index] + [item] + c.items[index..])
    ensures c.lock.IsFree() && !(0 <= index <= |c.items|) ==>
              r == Threw(c.(lock := WriteHeld), ArgumentOutOfRange)
  {
    WriteLocked(c, BaseList.Insert(c.items, index, item))
  }

  /** The guard of DoRemoveAt and of the indexer setter: true when the
      operation silently does nothing. It only looks at the upper bound. */
  predicate Ignored(count: int, index: int) {
    count == 0 || count <= index
  }

  /** DoRemoveAt: an index at or past the end, or any index on an empty
      collection, is a silent no-op; an index in range removes that element. A negative
      index passes the guard and the base call throws with the write lock held. */
  function DoRemoveAt<T>(c: Collection<T>, index: int): (r: Outcome<T, ()>)
    ensures !c.lock.IsFree() ==> r == Blocked(c)
    ensures c.lock.IsFree() && index >= |c.items| ==> r == Returned(c, ())
    ensures c.lock.IsFree() && |c.items| == 0 ==> r == Returned(c, ())
    ensures c.lock.IsFree() && 0 <= index < |c.items| ==>
              r.Returned? && r.state == c.(items := c.items[..index] + c.items[index + 1..])
    ensures c.lock.IsFree() && index < 0 && |c.items| > 0 ==>
              r == Threw(c.(lock := WriteHeld), ArgumentOutOfRange)
  {
    WriteLocked(c, if Ignored(|c.items|, index) then BaseList.Ok(c.items, ())
                   else BaseList.RemoveAt(c.items, index))
  }

  /** The indexer getter: no guard; an index outside 0..Count-1 throws with
      the read acquisition still counted. */
  function GetItem<T>(c: Collection<T>, index: int): (r: Outcome<T, T>)
    ensures c.lock.writer ==> r == Blocked(c)
    ensures !c.lock.writer && 0 <= index < |c.items| ==> r == Returned(c, c.items[index])
    ensures !c.lock.writer && !(0 <= index < |c.items|) ==>
              r == Threw(c.(lock := c.lock.(readers := c.lock.readers + 1)), ArgumentOutOfRange)
  {
    ReadLocked(c, BaseList.Get(c.items, index))
  }

  /** The indexer setter: takes the write lock directly (no marshaling) and
      applies DoRemoveAt's guard, so an index at or past the end, or any index
      on an empty collection, is a silent no-op, and a negative one on a
      non-empty collection throws with the write lock held. */
  function SetItem<T>(c: Collection<T>, index: int, value: T): (r: Outcome<T, ()>)
    ensures !c.lock.IsFree() ==> r == Blocked(c)
    ensures c.lock.IsFree() && index >= |c.items| ==> r == Returned(c, ())
    ensures c.lock.IsFree() && |c.items| == 0 ==> r == Returned(c, ())
    ensures c.lock.IsFree() && 0 <= index < |c.items| ==>
              r.Returned? && r.state.lock == c.lock && r.state.pending == c.pending
              && |r.state.items| == |c.items| && r.state.items[index] == value
              && forall j :: 0 <= j < |c.items| && j != index ==> r.state.items[j] == c.items[j]
    ensures c.lock.IsFree() && index < 0 && |c.items| > 0 ==>
              r == Threw(c.(lock := WriteHeld), ArgumentOutOfRange)
  {
    WriteLocked(c, if Ignored(|c.items|, index) then BaseList.Ok(c.items, ())
                   else BaseList.Set(c.items, index, value))
  }

  /** Removing at the position just inserted at restores the collection. */
  lemma InsertThenRemoveAt<T>(c: Collection<T>, index: int, item: T)
    requires c.lock.IsFree() && 0 <= index <= |c.items|
    ensures DoRemoveAt(DoInsert(c, index, item).state, index) == Returned(c, ())
  {
  }

  /** Removing the last position after an Add restores the collection. */
  lemma AddThenRemoveLast<T>(c: Collection<T>, item: T)
    requires c.lock.IsFree()
    ensures DoRemoveAt(DoAdd(c, item).state, |c.items|) == Returned(c, ())
  {
  }

  /** Remove of an element is RemoveAt of the position IndexOf reports, and
      Remove of an absent element changes nothing. */
  lemma RemoveIsRemoveAtIndexOf<T>(c: Collection<T>, item: T)
    requires c.lock.IsFree()
    ensures IndexOf(c, item).value >= 0 ==>
              DoRemove(c, item) == Returned(DoRemoveAt(c, IndexOf(c, item).value).state, true)
    ensures IndexOf(c, item).value < 0 ==> DoRemove(c, item) == Returned(c, false)
  {
  }

  /** Contains and IndexOf agree. */
  lemma ContainsIffIndexOf<T>(c: Collection<T>, item: T)
    requires !c.lock.writer
    ensures Contains(c, item).value <==> IndexOf(c, item).value >= 0
  {
  }

  /** Through the indexer, a write in range is read back, and an ignored
      write leaves every read as it was. */
  lemma SetThenGet<T>(c: Collection<T>, index: int, value: T)
    requires c.lock.IsFree() && 0 <= index
    ensures index < |c.items| ==> GetItem(SetItem(c, index, value).state, index) == Returned(SetItem(c, index, value).state, value)
    ensures index >= |c.items| ==> SetItem(c, index, value).state == c
  {
  }

  /** Count moves by exactly one for an Add and drops to zero on Clear. */
  lemma CountAfterAddAndClear<T>(c: Collection<T>, item: T)
    requires c.lock.IsFree()
    ensures Count(DoAdd(c, item).state).value == Count(c).value + 1
    ensures Count(DoClear(c).state).value == 0
  {
  }
}
