/** Inputs on which the source, as written, misbehaves: a lock acquisition
    that is never released, and a Dispose that is not idempotent. Each lemma
    states the behaviour of the as-written members for every input of the
    offending kind. A Blocked outcome after a leak means the call never
    completes: another thread waits for the lock, and the thread that leaked
    it gets a LockRecursionException (the lock is created without recursion
    support). */
module Counterexamples {
  import opened Base
  import opened RwLocks
  import opened SafeCollection
  import opened SafeEnumerator
  import Marshal

  /** Once the write lock is left held, no later locked call completes. */
  lemma LeakedWriteLockBlocksAll<T>(c: Collection<T>, item: T, index: int, dest: Option<seq<T>>, at: int)
    requires c.lock == WriteHeld
    ensures DoAdd(c, item) == Blocked(c) && DoClear(c) == Blocked(c)
    ensures DoInsert(c, index, item) == Blocked(c) && DoRemoveAt(c, index) == Blocked(c)
    ensures DoRemove(c, item) == Blocked(c) && SetItem(c, index, item) == Blocked(c)
    ensures CopyTo(c, dest, at) == Blocked(c)
    ensures Count(c) == Blocked(c) && GetItem(c, index) == Blocked(c)
    ensures Contains(c, item) == Blocked(c) && IndexOf(c, item) == Blocked(c)
    ensures Open(c) == Blocked(c)
  {
  }

  /** DoRemoveAt's guard only tests the upper bound: a negative index on a
      non-empty collection reaches the base call, which throws with the write
      lock held, and no later Count completes. */
  lemma NegativeRemoveAtLeaksWriteLock<T>(c: Collection<T>, index: int)
    requires c.lock.IsFree() && index < 0 && |c.items| > 0
    ensures DoRemoveAt(c, index).Threw?
    ensures DoRemoveAt(c, index).state.lock.writer
    ensures Count(DoRemoveAt(c, index).state).Blocked?
  {
  }

  /** The indexer setter has the same guard and the same gap. */
  lemma NegativeSetLeaksWriteLock<T>(c: Collection<T>, index: int, value: T)
    requires c.lock.IsFree() && index < 0 && |c.items| > 0
    ensures SetItem(c, index, value).Threw?
    ensures SetItem(c, index, value).state.lock.writer
    ensures Count(SetItem(c, index, value).state).Blocked?
  {
  }

  /** The indexer getter throws past its ExitReadLock: the read acquisition is
      never given back, so no writer can ever enter again. */
  lemma BadGetLeaksReadLock<T>(c: Collection<T>, index: int, q: Marshal.Request<T>, hasThreadAccess: bool, ran: bool)
    requires c.lock.IsFree() && !(0 <= index < |c.items|)
    ensures GetItem(c, index).Threw?
    ensures GetItem(c, index).state.lock.readers == 1
    ensures Marshal.Perform(GetItem(c, index).state, q, hasThreadAccess, ran).items == c.items
  {
  }

  /** DoInsert with an index outside 0..Count throws with the write lock held. */
  lemma BadInsertLeaksWriteLock<T>(c: Collection<T>, index: int, item: T)
    requires c.lock.IsFree() && !(0 <= index <= |c.items|)
    ensures DoInsert(c, index, item).Threw?
    ensures DoInsert(c, index, item).state.lock.writer
  {
  }

  /** CopyTo into too small (or null) an array throws with the write lock held. */
  lemma BadCopyToLeaksWriteLock<T>(c: Collection<T>, dest: Option<seq<T>>, at: int)
    requires c.lock.IsFree() && !(dest.Some? && 0 <= at && at + |c.items| <= |dest.value|)
    ensures CopyTo(c, dest, at).Threw?
    ensures CopyTo(c, dest, at).state.lock.writer
  {
  }

  /** Disposing one session twice: the first Dispose gives the acquisition
      back, and the second, instead of being ignored, exits a read lock the
      caller no longer holds and throws SynchronizationLockException. */
  lemma DoubleDispose<T>(c: Collection<T>)
    requires c.lock.IsFree()
    ensures var once := Dispose(Open(c).state);
            once == Returned(c, ()) && Dispose(once.state) == Threw(c, SynchronizationLock)
  {
  }

  /** A usage scenario on [1,2,3], against the source as written: the
      ignored RemoveAt(5) and this[10] = 99 change nothing, this[10] throws,
      and from then on Remove(2) on the owning thread cannot take the write
      lock because of the read acquisition the failed get never gave back:
      on that same thread it gets a LockRecursionException, on any other it
      waits. */
  lemma ScenarioStallsAfterBadGet()
    ensures var c := Collection([1, 2, 3], Free, []);
            && DoRemoveAt(c, 5) == Returned(c, ())
            && SetItem(c, 10, 99) == Returned(c, ())
            && GetItem(c, 10) == Threw(c.(lock := RwLock(1, false)), ArgumentOutOfRange)
            && Marshal.Remove(GetItem(c, 10).state, 2, true, true).Blocked?
  {
  }
}
