/** The reader/writer lock (ReaderWriterLockSlim) reduced to its counters.
    An acquisition that cannot be granted yields None: a real caller would
    wait (another thread holds the lock) or get a LockRecursionException (it
    holds the lock itself); both mean the guarded step does not happen now. */
module RwLocks {
  import opened Base

  datatype RwLock = RwLock(readers: nat, writer: bool) {

    /** Readers and a writer never hold the lock at the same time. */
    predicate Valid() {
      !(writer && readers > 0)
    }

    predicate IsFree() {
      readers == 0 && !writer
    }
  }

  const Free: RwLock := RwLock(0, false)

  /** EnterReadLock: granted exactly when no writer holds the lock. */
  function EnterRead(l: RwLock): (r: Option<RwLock>)
    ensures r.Some? <==> !l.writer
    ensures r.Some? ==> r.value.readers == l.readers + 1 && !r.value.writer
  {
    if l.writer then None else Some(l.(readers := l.readers + 1))
  }

  /** ExitReadLock: fails (SynchronizationLockException) when no read
      acquisition is outstanding. */
  function ExitRead(l: RwLock): (r: Option<RwLock>)
    ensures r.Some? <==> l.readers > 0
    ensures r.Some? ==> r.value.readers + 1 == l.readers && r.value.writer == l.writer
  {
    if l.readers == 0 then None else Some(l.(readers := l.readers - 1))
  }

  /** EnterWriteLock: granted exactly when nobody holds the lock in any mode. */
  function EnterWrite(l: RwLock): (r: Option<RwLock>)
    ensures r.Some? <==> l.IsFree()
    ensures r.Some? ==> r.value == RwLock(0, true)
  {
    if l.IsFree() then Some(RwLock(0, true)) else None
  }

  /** ExitWriteLock: fails when the write lock is not held. */
  function ExitWrite(l: RwLock): (r: Option<RwLock>)
    ensures r.Some? <==> l.writer
    ensures r.Some? ==> !r.value.writer && r.value.readers == l.readers
  {
    if l.writer then Some(l.(writer := false)) else None
  }

  /** A read acquisition followed by its release restores the lock exactly. */
  lemma ReadRoundTrip(l: RwLock)
    requires !l.writer
    ensures EnterRead(l).Some? && ExitRead(EnterRead(l).value) == Some(l)
  {
  }

  /** A write acquisition followed by its release restores the lock exactly. */
  lemma WriteRoundTrip(l: RwLock)
    requires l.IsFree()
    ensures EnterWrite(l).Some? && ExitWrite(EnterWrite(l).value) == Some(l)
  {
  }

  /** Every transition that is granted keeps readers and writers apart. */
  lemma TransitionsKeepValid(l: RwLock)
    requires l.Valid()
    ensures EnterRead(l).Some? ==> EnterRead(l).value.Valid()
    ensures ExitRead(l).Some? ==> ExitRead(l).value.Valid()
    ensures EnterWrite(l).Some? ==> EnterWrite(l).value.Valid()
    ensures ExitWrite(l).Some? ==> ExitWrite(l).value.Valid()
  {
  }
}
