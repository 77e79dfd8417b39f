/** The evidently intended behaviour where the source falls short: every
    lock region releases its lock however the base call ends (try/finally),
    the no-op guard of DoRemoveAt and of the indexer setter covers both ends
    of the range, and Dispose is idempotent. Wherever the source returns
    normally these members do exactly what it does. */
module Fixed {
  import opened Base
  import opened RwLocks
  import opened SafeCollection
  import opened SafeEnumerator
  import BaseList

  /** EnterWriteLock; try base call; finally ExitWriteLock. */
  function WriteLockedFinally<T, R>(c: Collection<T>, body: BaseList.Res<T, R>): (r: Outcome<T, R>)
    ensures r.Blocked? <==> !c.lock.IsFree()
    ensures r.Blocked? ==> r.state == c
    ensures r.Returned? <==> c.lock.IsFree() && body.Ok?
    ensures r.Returned? ==> r.state == c.(items := body.items) && r.value == body.value
    ensures r.Threw? ==> r.state == c && r.fault == body.fault
  {
    match EnterWrite(c.lock)
    case None => Blocked(c)
    case Some(held) =>
      var released := ExitWrite(held).value;
      match body
      case Ok(items, v) => Returned(c.(items := items, lock := released), v)
      case Fail(f) => Threw(c.(lock := released), f)
  }

  /** EnterReadLock; try base call; finally ExitReadLock. */
  function ReadLockedFinally<T, R>(c: Collection<T>, body: BaseList.Res<T, R>): (r: Outcome<T, R>)
    ensures r.Blocked? <==> c.lock.writer
    ensures !r.Blocked? ==> r.state == c
    ensures r.Returned? <==> !c.lock.writer && body.Ok?
    ensures r.Returned? ==> r.value == body.value
    ensures r.Threw? ==> r.fault == body.fault
  {
    match EnterRead(c.lock)
    case None => Blocked(c)
    case Some(held) =>
      var released := ExitRead(held).value;
      match body
      case Ok(_, v) => Returned(c.(lock := released), v)
      case Fail(f) => Threw(c.(lock := released), f)
  }

  /** The no-op guard over the whole invalid range. */
  predicate OutOfRange(count: int, index: int) {
    index < 0 || count <= index
  }

  /** DoRemoveAt: every invalid index is a silent no-op; the lock is always released. */
  function DoRemoveAt<T>(c: Collection<T>, index: int): (r: Outcome<T, ()>)
    ensures !c.lock.IsFree() <==> r.Blocked?
    ensures !r.Blocked? ==> r.Returned? && r.state.lock == c.lock && r.state.pending == c.pending
    ensures c.lock.IsFree() && !(0 <= index < |c.items|) ==> r == Returned(c, ())
    ensures c.lock.IsFree() && 0 <= index < |c.items| ==>
              r.state.items == c.items[..index] + c.items[index + 1..]
  {
    WriteLockedFinally(c, if OutOfRange(|c.items|, index) then BaseList.Ok(c.items, ())
                          else BaseList.RemoveAt(c.items, index))
  }

  /** The indexer setter: every invalid index is a silent no-op; the lock is always released. */
  function SetItem<T>(c: Collection<T>, index: int, value: T): (r: Outcome<T, ()>)
    ensures !c.lock.IsFree() <==> r.Blocked?
    ensures !r.Blocked? ==> r.Returned? && r.state.lock == c.lock && r.state.pending == c.pending
    ensures c.lock.IsFree() && !(0 <= index < |c.items|) ==> r == Returned(c, ())
    ensures c.lock.IsFree() && 0 <= index < |c.items| ==> r.state.items == c.items[index := value]
  {
    WriteLockedFinally(c, if OutOfRange(|c.items|, index) then BaseList.Ok(c.items, ())
                          else BaseList.Set(c.items, index, value))
  }

  /** The indexer getter: an invalid index still throws, but after the read lock is released. */
  function GetItem<T>(c: Collection<T>, index: int): (r: Outcome<T, T>)
    ensures c.lock.writer <==> r.Blocked?
    ensures !r.Blocked? ==> r.state == c
    ensures !c.lock.writer && 0 <= index < |c.items| ==> r.Returned? && r.value == c.items[index]
    ensures !c.lock.writer && !(0 <= index < |c.items|) ==> r.Threw? && r.fault == ArgumentOutOfRange
  {
    ReadLockedFinally(c, BaseList.Get(c.items, index))
  }

  /** DoInsert: an invalid index still throws, but after the write lock is released. */
  function DoInsert<T>(c: Collection<T>, index: int, item: T): (r: Outcome<T, ()>)
    ensures !c.lock.IsFree() <==> r.Blocked?
    ensures !r.Blocked? ==> r.state.lock == c.lock && r.state.pending == c.pending
    ensures c.lock.IsFree() && 0 <= index <= |c.items| ==>
              r.Returned? && r.state.items == c.items[..index] + [item] + c.items[index..]
    ensures c.lock.IsFree() && !(0 <= index <= |c.items|) ==> r == Threw(c, ArgumentOutOfRange)
  {
    WriteLockedFinally(c, BaseList.Insert(c.items, index, item))
  }

  /** CopyTo: a failed copy still throws, but after the write lock is released. */
  function CopyTo<T>(c: Collection<T>, dest: Option<seq<T>>, at: int): (r: Outcome<T, seq<T>>)
    ensures !c.lock.IsFree() <==> r.Blocked?
    ensures !r.Blocked? ==> r.state == c
    ensures r.Returned? ==> dest.Some? && 0 <= at && at + |c.items| <= |dest.value|
    ensures r.Returned? ==> |r.value| == |dest.value| && r.value[at..at + |c.items|] == c.items
    ensures c.lock.IsFree() && !(dest.Some? && 0 <= at && at + |c.items| <= |dest.value|) ==> r.Threw?
  {
    WriteLockedFinally(c, BaseList.CopyTo(c.items, dest, at))
  }

  /** Where the source returns normally, the corrected members return the
      same thing; where it throws with a lock held, the corrected members
      leave the same elements and the lock as it was. */
  lemma AgreesWithSource<T>(c: Collection<T>, index: int, item: T, dest: Option<seq<T>>)
    ensures SafeCollection.DoRemoveAt(c, index).Returned? ==> DoRemoveAt(c, index) == SafeCollection.DoRemoveAt(c, index)
    ensures SafeCollection.SetItem(c, index, item).Returned? ==> SetItem(c, index, item) == SafeCollection.SetItem(c, index, item)
    ensures SafeCollection.GetItem(c, index).Returned? ==> GetItem(c, index) == SafeCollection.GetItem(c, index)
    ensures SafeCollection.DoInsert(c, index, item).Returned? ==> DoInsert(c, index, item) == SafeCollection.DoInsert(c, index, item)
    ensures SafeCollection.CopyTo(c, dest, index).Returned? ==> CopyTo(c, dest, index) == SafeCollection.CopyTo(c, dest, index)
    ensures SafeCollection.GetItem(c, index).Threw? ==> GetItem(c, index) == Threw(c, SafeCollection.GetItem(c, index).fault)
    ensures SafeCollection.DoInsert(c, index, item).Threw? ==> DoInsert(c, index, item) == Threw(c, SafeCollection.DoInsert(c, index, item).fault)
    ensures SafeCollection.CopyTo(c, dest, index).Threw? ==> CopyTo(c, dest, index) == Threw(c, SafeCollection.CopyTo(c, dest, index).fault)
    ensures SafeCollection.DoRemoveAt(c, index).Threw? ==> DoRemoveAt(c, index) == Returned(c, ())
    ensures SafeCollection.SetItem(c, index, item).Threw? ==> SetItem(c, index, item) == Returned(c, ())
  {
  }

  /** An enumerator that remembers whether it has been disposed. */
  datatype Session<T> = Session(cursor: Cursor<T>, disposed: bool)

  /** Dispose that releases the session's acquisition once and ignores later calls. */
  function Dispose<T>(c: Collection<T>, s: Session<T>): (r: Outcome<T, Session<T>>)
    ensures s.disposed ==> r == Returned(c, s)
    ensures !s.disposed && c.lock.readers > 0 ==>
              r == Returned(c.(lock := c.lock.(readers := c.lock.readers - 1)), s.(disposed := true))
    ensures !s.disposed && c.lock.readers == 0 ==> r.Threw?
  {
    if s.disposed then Returned(c, s)
    else
      match SafeEnumerator.Dispose(c)
      case Returned(d, _) => Returned(d, s.(disposed := true))
      case Threw(d, f) => Threw(d, f)
      case Blocked(d) => Blocked(d)
  }

  /** Disposing a session twice is the same as disposing it once: the other
      sessions keep their acquisitions. */
  lemma DisposeIdempotent<T>(c: Collection<T>, s: Session<T>)
    requires c.lock.readers > 0
    ensures Dispose(Dispose(c, s).state, Dispose(c, s).value) == Dispose(c, s)
  {
  }

  /** The same scenario with the corrected getter runs to the end as
      intended: Remove(2) returns true leaving [1,3], and a second Remove(2)
      returns false and changes nothing. */
  lemma ScenarioCompletes()
    ensures var c := Collection([1, 2, 3], Free, []);
            && DoRemoveAt(c, 5) == Returned(c, ())
            && SetItem(c, 10, 99) == Returned(c, ())
            && GetItem(c, 10) == Threw(c, ArgumentOutOfRange)
            && SafeCollection.DoRemove(c, 2) == Returned(c.(items := [1, 3]), true)
            && SafeCollection.DoRemove(c.(items := [1, 3]), 2) == Returned(c.(items := [1, 3]), false)
  {
    var s: seq<int> := [1, 2, 3];
    assert BaseList.IndexOf(s, 2) == 1 by {
      assert s[0] != 2 && s[1..] == [2, 3];
    }
    assert s[..1] + s[2..] == [1, 3];
    assert 2 !in [1, 3];
  }
}
