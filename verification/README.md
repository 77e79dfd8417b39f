# Thread-safe observable collection: a sequential model

This project models `ThreadSafeObservableCollection<T>`, a WinRT collection
whose structural changes are serialized through the thread that owns its
`CoreDispatcher`. It also models the two helpers that make iteration safe:
`SafeReaderWriterEnumerator<T>` and `ThreadSafeObservableCollectionEnumerableWrapper<T>`.
The model has no threads. It is a deterministic state machine over
`Collection<T>(items, lock, pending)`:

- `items` is the backing sequence.
- `lock` is the `ReaderWriterLockSlim` reduced to `RwLock(readers: nat, writer: bool)`.
- `pending` is the dispatcher's FIFO queue of posted closures. The owning thread runs them later, oldest first.

Every operation returns an `Outcome`:

- `Returned(state, value)`: the call returned normally.
- `Threw(state, fault)`: the call raised an exception. The state it leaves behind still counts, including a lock that was never released.
- `Blocked(state)`: a lock acquisition could not be granted. A real caller would wait, or get a `LockRecursionException` if it already holds the lock. Either way nothing has happened.

The caller's thread identity (`CoreDispatcher.HasThreadAccess`) is a boolean
argument. Whether the dispatcher ever runs a blocking closure is a second
argument, `ran`.

Modules follow the source:

- `RwLocks`: the lock counters.
- `BaseList`: the behaviour of the base `Collection<T>`/`List<T>` calls.
- `SafeCollection`: the locked bodies. These are the `Do*` methods, the reads and the indexer.
- `Marshal`: running an operation inline or posting it, `Remove`'s blocking wait, and the dispatcher draining its queue.
- `SafeEnumerator`: the lock-holding iteration session.
- `LockedEnumerable`: `AsLocked`, the wrapper and `foreach`.
- `Counterexamples` and `Fixed`: the Findings below.

The lock regions are modelled as written: `EnterXLock`, then the base call,
then `ExitXLock`, with no `try`/`finally`.

Two consequences of following the code:

- `CopyTo` takes the write lock (ThreadSafeObservableCollection.cs:76), although it only reads.
- No lock region has `try`/`finally`, so an exception from the base call leaves the lock held. See Findings.

## Model

| member | source | states |
|---|---|---|
| RwLocks.EnterRead | ThreadSafeObservableCollection.cs:68 | EnterReadLock is granted exactly when no writer holds the lock, and adds one reader |
| RwLocks.ExitRead | ThreadSafeObservableCollection.cs:70 | ExitReadLock fails exactly when no read acquisition is outstanding, otherwise removes one reader |
| RwLocks.EnterWrite | ThreadSafeObservableCollection.cs:46 | EnterWriteLock is granted exactly when nobody holds the lock in any mode, and then the writer alone holds it |
| RwLocks.ExitWrite | ThreadSafeObservableCollection.cs:48 | ExitWriteLock fails exactly when the write lock is not held, otherwise clears the writer and keeps the readers |
| RwLocks.ReadRoundTrip | ThreadSafeObservableCollection.cs:66-72 | a granted read acquisition followed by its release restores the lock exactly |
| RwLocks.WriteRoundTrip | ThreadSafeObservableCollection.cs:44-49 | on a free lock, a write acquisition followed by its release restores the lock exactly |
| RwLocks.TransitionsKeepValid | ThreadSafeObservableCollection.cs:21 | no granted acquisition or release ever lets readers and a writer hold the lock together |
| BaseList.IndexOf | ThreadSafeObservableCollection.cs:126 | -1 exactly when the item is absent; otherwise a position holding the item with no equal element before it |
| BaseList.Append | ThreadSafeObservableCollection.cs:47 | the item lands after all existing elements, which keep their positions |
| BaseList.Insert | ThreadSafeObservableCollection.cs:148 | succeeds exactly for 0..Count; the item is at the index, earlier elements stay, later ones shift up by one; otherwise ArgumentOutOfRange |
| BaseList.RemoveAt | ThreadSafeObservableCollection.cs:169 | succeeds exactly for 0..Count-1; earlier elements stay, later ones shift down by one; otherwise ArgumentOutOfRange |
| BaseList.Remove | ThreadSafeObservableCollection.cs:116 | true exactly when the item is present; then the first occurrence alone is removed (multiset minus one copy); otherwise the contents are unchanged |
| BaseList.Get | ThreadSafeObservableCollection.cs:179 | succeeds exactly for 0..Count-1 with the element at the index; otherwise ArgumentOutOfRange |
| BaseList.Set | ThreadSafeObservableCollection.cs:191 | succeeds exactly for 0..Count-1; only that slot changes and the length is kept |
| BaseList.CopyTo | ThreadSafeObservableCollection.cs:77 | null array, negative offset and short array fail in that order; otherwise the elements appear at the offset and every other slot keeps its value |
| BaseList.InsertThenRemoveAt | ThreadSafeObservableCollection.cs:144-172 | removing at the index just inserted at gives back the original contents |
| BaseList.RemoveAtThenInsert | ThreadSafeObservableCollection.cs:144-172 | re-inserting the removed element at its index gives back the original contents |
| BaseList.RemoveIsRemoveAtIndexOf | ThreadSafeObservableCollection.cs:113-131 | Remove equals RemoveAt of the IndexOf position, and is a no-op returning false when IndexOf is -1 |
| BaseList.SetThenGet | ThreadSafeObservableCollection.cs:174-195 | a written slot reads back the written value; writing a slot's own value changes nothing |
| SafeCollection.WriteLocked | ThreadSafeObservableCollection.cs:113-120 | a write region waits unless the lock is free; on return the lock is as found; a fault in the base call leaves the write lock held |
| SafeCollection.ReadLocked | ThreadSafeObservableCollection.cs:123-131 | a read region waits only for a writer; on return nothing changes; a fault leaves one extra read acquisition |
| SafeCollection.New | ThreadSafeObservableCollection.cs:23-34 | the elements equal the supplied collection in order, or are empty for null; the lock is free and nothing is pending |
| SafeCollection.DoAdd | ThreadSafeObservableCollection.cs:44-49 | on a free lock, appends the item and leaves lock and queue as found; otherwise waits with nothing changed |
| SafeCollection.DoClear | ThreadSafeObservableCollection.cs:59-64 | on a free lock, empties the collection and leaves the lock free; otherwise waits |
| SafeCollection.Contains | ThreadSafeObservableCollection.cs:66-72 | read-only: true exactly when an equal element is present, state unchanged; waits only while a writer holds the lock |
| SafeCollection.CopyTo | ThreadSafeObservableCollection.cs:74-79 | under the write lock: on success the destination's window equals the elements and the rest is kept; on failure the matching exception escapes with the write lock held |
| SafeCollection.Count | ThreadSafeObservableCollection.cs:81-90 | read-only: the number of elements, state unchanged |
| SafeCollection.DoRemove | ThreadSafeObservableCollection.cs:113-120 | returns true exactly when the item was present; then only its first occurrence is gone; otherwise the state is unchanged; the lock is released |
| SafeCollection.IndexOf | ThreadSafeObservableCollection.cs:123-131 | read-only: the first matching position, or -1 exactly when absent |
| SafeCollection.DoInsert | ThreadSafeObservableCollection.cs:144-150 | for 0..Count the item is inserted at the index with the suffix shifted; any other index throws with the write lock held |
| SafeCollection.DoRemoveAt | ThreadSafeObservableCollection.cs:160-172 | an index at or past the end, or any index on an empty collection, is a no-op with the lock released; an in-range index removes exactly that element; a negative index on a non-empty collection throws with the write lock held |
| SafeCollection.GetItem | ThreadSafeObservableCollection.cs:176-182 | in range: the element, state unchanged; out of range: ArgumentOutOfRange with the read acquisition still counted |
| SafeCollection.SetItem | ThreadSafeObservableCollection.cs:183-193 | an index at or past the end, or any index on an empty collection, is a no-op; in range only that slot changes and the length is kept; a negative index on a non-empty collection throws with the write lock held |
| SafeCollection.InsertThenRemoveAt | ThreadSafeObservableCollection.cs:144-172 | DoRemoveAt at the index DoInsert used restores the collection, lock included |
| SafeCollection.AddThenRemoveLast | ThreadSafeObservableCollection.cs:160-172 | DoRemoveAt of the last position after DoAdd restores the collection |
| SafeCollection.RemoveIsRemoveAtIndexOf | ThreadSafeObservableCollection.cs:113-131 | DoRemove is DoRemoveAt at the position IndexOf reports, returning true; with no match it returns false and changes nothing |
| SafeCollection.ContainsIffIndexOf | ThreadSafeObservableCollection.cs:66-72 | Contains is true exactly when IndexOf is non-negative |
| SafeCollection.SetThenGet | ThreadSafeObservableCollection.cs:174-195 | through the indexer a write in range reads back; a write at or past the end leaves the collection unchanged |
| SafeCollection.CountAfterAddAndClear | ThreadSafeObservableCollection.cs:81-90 | Count grows by exactly one per DoAdd and is zero after DoClear |
| Marshal.Post | ThreadSafeObservableCollection.cs:41 | posting keeps elements and lock and puts the closure at the end of the queue, after every earlier one |
| Marshal.Exec | ThreadSafeObservableCollection.cs:36-172 | a posted closure leaves the queue alone, and on return the lock is as found |
| Marshal.Add | ThreadSafeObservableCollection.cs:36-42 | on the owning thread, appends with the lock released; off it, changes nothing but queues exactly one Add |
| Marshal.Clear | ThreadSafeObservableCollection.cs:51-57 | on the owning thread, empties the collection; off it, only queues a Clear |
| Marshal.Insert | ThreadSafeObservableCollection.cs:133-142 | on the owning thread, a valid index inserts with the suffix shifted, and any other index throws ArgumentOutOfRange with the write lock held; off it, only queues the Insert |
| Marshal.RemoveAt | ThreadSafeObservableCollection.cs:152-158 | on the owning thread, an in-range index removes that element, an index at or past the end or on an empty collection is a no-op, and a negative index on a non-empty collection throws with the write lock held; off the thread, only queues the RemoveAt |
| Marshal.Submit | ThreadSafeObservableCollection.cs:36-172 | the fire-and-forget calls run their closure inline on the owning thread and only post it elsewhere |
| Marshal.Pump | ThreadSafeObservableCollection.cs:41 | the dispatcher runs the oldest closure and drops it from the queue; on a free lock its effect is exactly that of the same call made inline on the owning thread; if the lock is taken the closure waits, still queued |
| Marshal.Drain | ThreadSafeObservableCollection.cs:36-42 | after a full drain the queue is empty and the lock is as found; with the lock taken nothing runs |
| Marshal.Remove | ThreadSafeObservableCollection.cs:95-111 | inline on the owning thread; off it, earlier posted closures run first and the result is DoRemove's, or false with nothing changed when the closure never ran |
| Marshal.RunInline | ThreadSafeObservableCollection.cs:36-42 | reference semantics of a call sequence on the owning thread; it leaves the queue alone and returns with the lock as found |
| Marshal.ExecIgnoresQueue | ThreadSafeObservableCollection.cs:44-49 | a closure's effect does not depend on what else is queued |
| Marshal.DrainIsInline | ThreadSafeObservableCollection.cs:36-172 | draining a queue of closures has the effect of running the same operations inline in the same order |
| Marshal.OffThreadOnlyQueues | ThreadSafeObservableCollection.cs:36-172 | a sequence of fire-and-forget calls off the owning thread only extends the queue, in call order |
| Marshal.OnThreadIsInline | ThreadSafeObservableCollection.cs:36-172 | the same calls on the owning thread are the inline reference |
| Marshal.MarshaledEqualsInline | ThreadSafeObservableCollection.cs:36-172 | issuing calls off the owning thread and draining equals issuing them on it |
| Marshal.ReadersExcludeWriters | ThreadSafeObservableCollection.cs:95-120 | while any read acquisition is outstanding, no mutation request (Add, Clear, Insert, RemoveAt, Remove, the indexer setter, a dispatcher step) from any thread changes the elements or the lock; reads are outside this claim and may add read acquisitions |
| SafeEnumerator.Open | ThreadSafeEnumerator.cs:23-30 | adds exactly one read acquisition and starts the cursor before the first element; waits while a writer holds the lock |
| SafeEnumerator.Dispose | ThreadSafeEnumerator.cs:34-40 | gives back exactly one read acquisition; with none outstanding it throws SynchronizationLockException |
| SafeEnumerator.MoveNext | ThreadSafeEnumerator.cs:50-53 | reaches the next element exactly when one is left, else runs off the end; it sees the elements only, never the lock |
| SafeEnumerator.Reset | ThreadSafeEnumerator.cs:55-58 | the cursor goes back before the first element |
| SafeEnumerator.Current | ThreadSafeEnumerator.cs:60-66 | both Current properties return the element the cursor last passed (None before the first step and past the end); CurrentAfterMoveNext ties this to MoveNext |
| SafeEnumerator.CurrentAfterMoveNext | ThreadSafeEnumerator.cs:60-66 | after a step Current is the element passed, or nothing at the end; Reset forgets the step |
| SafeEnumerator.ResetRestarts | ThreadSafeEnumerator.cs:55-58 | after Reset inside a session, the session again yields the elements from the first one, and all of them once it reports the end |
| SafeEnumerator.OpenThenDispose | ThreadSafeEnumerator.cs:23-40 | a session's constructor and its Dispose leave the collection exactly as found |
| SafeEnumerator.RunIsolated | ThreadSafeEnumerator.cs:27-53 | under any interleaving with mutation requests (Add, Clear, Insert, RemoveAt, Remove, the indexer setter, a dispatcher step) from other threads while the read lock is held, elements and lock stay fixed and the session yields consecutive elements; other threads' reads are not in the interleaving |
| SafeEnumerator.SessionSeesSnapshot | ThreadSafeEnumerator.cs:23-60 | a session yields a prefix of the elements present when it was opened, and all of them, in order, once MoveNext reports the end |
| LockedEnumerable.Construct | ThreadSafeEnumerable.cs:14-18 | building the wrapper changes nothing and acquires nothing |
| LockedEnumerable.AsLocked | ThreadSafeObservableCollection.cs:197-200 | AsLocked changes nothing and acquires nothing |
| LockedEnumerable.GetEnumerator | ThreadSafeEnumerable.cs:22-25 | each call is a fresh session with one more read acquisition on the collection's own lock |
| LockedEnumerable.GetEnumeratorUntyped | ThreadSafeEnumerable.cs:27-30 | the object-typed GetEnumerator opens a session like the generic one: one more read acquisition and a cursor before the first element; blocked while a writer holds the lock |
| LockedEnumerable.SessionsCountReaders | ThreadSafeEnumerable.cs:22-25 | k live enumerators hold exactly k read acquisitions, and k Disposes restore the lock |
| LockedEnumerable.EndAfterStart | ThreadSafeEnumerator.cs:34-40 | k Disposes give back exactly k read acquisitions |
| LockedEnumerable.ForEach | ThreadSafeEnumerator.cs:23-60 | a foreach over AsLocked yields every element in order and leaves the lock as found; it waits while a writer holds the lock |
| Counterexamples.LeakedWriteLockBlocksAll | ThreadSafeObservableCollection.cs:21 | once the write lock is left held, none of the eleven locked calls (DoAdd, DoClear, DoInsert, DoRemoveAt, DoRemove, the indexer getter and setter, CopyTo, Count, Contains, IndexOf) nor opening an enumeration completes: other threads wait, and the thread that leaked the lock gets LockRecursionException |
| Counterexamples.NegativeRemoveAtLeaksWriteLock | ThreadSafeObservableCollection.cs:160-172 | a negative index on a non-empty collection throws and leaves the write lock held, so no later Count completes |
| Counterexamples.NegativeSetLeaksWriteLock | ThreadSafeObservableCollection.cs:183-193 | the same for the indexer setter |
| Counterexamples.BadGetLeaksReadLock | ThreadSafeObservableCollection.cs:176-182 | an out-of-range get leaves a read acquisition behind, after which no request changes the elements |
| Counterexamples.BadInsertLeaksWriteLock | ThreadSafeObservableCollection.cs:144-150 | an Insert index outside 0..Count throws with the write lock held |
| Counterexamples.BadCopyToLeaksWriteLock | ThreadSafeObservableCollection.cs:74-79 | a failing CopyTo throws with the write lock held |
| Counterexamples.DoubleDispose | ThreadSafeEnumerator.cs:34-40 | after a first Dispose gives the acquisition back, a second Dispose throws SynchronizationLockException instead of being ignored |
| Counterexamples.ScenarioStallsAfterBadGet | ThreadSafeObservableCollection.cs:176-182 | on [1,2,3] the ignored RemoveAt(5) and this[10] = 99 change nothing, this[10] throws, and the following Remove(2) never completes: on the owning thread it gets LockRecursionException, elsewhere it waits |
| Fixed.WriteLockedFinally | ThreadSafeObservableCollection.cs:113-120 | a write region that releases the lock on every path; on a fault nothing changes |
| Fixed.ReadLockedFinally | ThreadSafeObservableCollection.cs:123-131 | a read region that changes nothing on every path |
| Fixed.DoRemoveAt | ThreadSafeObservableCollection.cs:160-172 | every invalid index is a no-op, an in-range index removes that element, and the lock always ends as found |
| Fixed.SetItem | ThreadSafeObservableCollection.cs:183-193 | every invalid index is a no-op, an in-range index replaces that slot, and the lock always ends as found |
| Fixed.GetItem | ThreadSafeObservableCollection.cs:176-182 | out of range still throws, but the state, lock included, is unchanged |
| Fixed.DoInsert | ThreadSafeObservableCollection.cs:144-150 | an invalid index still throws, but the write lock is released |
| Fixed.CopyTo | ThreadSafeObservableCollection.cs:74-79 | a failing copy still throws, but the write lock is released |
| Fixed.AgreesWithSource | ThreadSafeObservableCollection.cs:144-193 | wherever the source returns normally the corrected members return the same; where it throws holding a lock they leave the state as found |
| Fixed.ScenarioCompletes | ThreadSafeObservableCollection.cs:95-120 | with the corrected getter the same scenario completes: Remove(2) returns true leaving [1,3], and again returns false with nothing changed |
| Fixed.Dispose | ThreadSafeEnumerator.cs:34-40 | gives back the session's acquisition once and ignores later calls |
| Fixed.DisposeIdempotent | ThreadSafeEnumerator.cs:34-40 | disposing a session twice equals disposing it once |

## Left out

- Real threads, interleavings and waiting. A lock acquisition that cannot be granted is the `Blocked` outcome. Interleavings appear only as explicit event sequences in `SafeEnumerator.Run`.
- `ReaderWriterLockSlim` internals. Per-thread ownership of read acquisitions, the recursion policy (`LockRecursionException`), fairness and upgradeable mode are out. The lock is a reader count and a writer flag, blind to which thread holds a read acquisition: `ExitReadLock` from a thread holding none throws, but the model only knows whether the total count is positive.
- `CoreDispatcher`, `RunAsync` and dispatcher priority. They are foreign WinRT calls. The dispatcher is the `hasThreadAccess` flag plus the FIFO queue.
- Marshal.Remove: `Task.Wait` can raise an AggregateException when the dispatcher cancels the closure. That exception is not modelled; a closure that never ran gives `false`, as the null check in the source does.
- Marshal.Remove: when a closure posted earlier throws on the dispatcher thread, the model reports that fault as Remove's own outcome. In the source that exception is raised on the dispatcher thread; Remove's caller sees only its own closure's result (`false` if it never ran) or a failure of `Wait`.
- Marshal.Drain: what the dispatcher does with an exception thrown by a posted closure is not modelled. The drain stops at the first such closure and reports it.
- `CollectionChanged`/`PropertyChanged` notifications and the reentrancy check of the `ObservableCollection` base class. They are unseen code and carry no state the core reads.
- Version checks of the inner `List<T>` enumerator. None of the guarded members can mutate while a session holds the read lock, but an unguarded mutation can, and then the next `MoveNext` throws InvalidOperationException; the model's `MoveNext` never throws. The `Dispose` of that enumerator is a no-op.
- The generic and the object-typed `Current` both return the inner enumerator's `Current`. One function, `SafeEnumerator.Current`, models both.
- Unguarded base members. The guarded members hide the base members rather than override them (Add with `new`, the rest implicitly), so calls through the base class or its interfaces (`IList<T>`, `ICollection<T>`) bypass the lock. So does the public `ObservableCollection<T>.Move`, which the class does not hide at all: it mutates without the lock and can trip the inner enumerator's version check under an open session. Only the guarded surface is modelled.
- 32-bit `int`: indexes and counts are unbounded integers. A collection never approaches `int.MaxValue` elements in the modelled operations.
- The wrapper holds a reference to its collection. The model has one collection, passed to each call explicitly, so `LockedEnumerable.Wrapper` carries no data.
- The rest of the model (marshaling, enumeration) runs the as-written members, not the `Fixed` ones. `Fixed.AgreesWithSource` proves that they coincide on every call the source returns from normally.

## Findings

| source | as written | input that shows it | evidently intended | confidence | as-written member | corrected member |
|---|---|---|---|---|---|---|
| ThreadSafeObservableCollection.cs:163-169 | the no-op guard of DoRemoveAt tests only `Count <= index`, so a negative index reaches the base RemoveAt, which throws between EnterWriteLock and ExitWriteLock | elements [1,2,3], RemoveAt(-1) on the owning thread: ArgumentOutOfRange, write lock held; no later locked call completes (other threads wait, the owning thread gets LockRecursionException) | every invalid index is a silent no-op with the lock released | medium; not executed | Counterexamples.NegativeRemoveAtLeaksWriteLock | Fixed.DoRemoveAt |
| ThreadSafeObservableCollection.cs:186-191 | the indexer setter has the same guard, so a negative index throws with the write lock held | elements [1,2,3], this[-1] = 9 | every invalid index is a silent no-op with the lock released | medium; not executed | Counterexamples.NegativeSetLeaksWriteLock | Fixed.SetItem |
| ThreadSafeObservableCollection.cs:178-180 | the getter's base call throws before ExitReadLock, so the read acquisition is never given back | elements [1,2,3], this[10]: ArgumentOutOfRange, then no writer can enter: other threads wait, and a write on the same thread gets LockRecursionException | the exception propagates after the read lock is released | high; not executed | Counterexamples.BadGetLeaksReadLock | Fixed.GetItem |
| ThreadSafeObservableCollection.cs:146-149 | DoInsert's base call throws before ExitWriteLock | elements [1,2,3], Insert(7, 0) on the owning thread | the exception propagates after the write lock is released | high; not executed | Counterexamples.BadInsertLeaksWriteLock | Fixed.DoInsert |
| ThreadSafeObservableCollection.cs:76-78 | CopyTo's base call throws before ExitWriteLock | elements [1,2,3], CopyTo(array of length 2, 0) | the exception propagates after the write lock is released | high; not executed | Counterexamples.BadCopyToLeaksWriteLock | Fixed.CopyTo |
| ThreadSafeEnumerator.cs:34-40 | Dispose exits the read lock on every call, contrary to the IDisposable rule that calls after the first are ignored | one session opened on a free lock and disposed twice: the second Dispose throws SynchronizationLockException | later calls to Dispose are ignored | medium; not executed | Counterexamples.DoubleDispose | Fixed.Dispose, Fixed.DisposeIdempotent |
