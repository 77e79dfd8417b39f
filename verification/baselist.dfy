/** The behaviour of the base collection (Collection<T> over a List<T>) that
    the guarded operations delegate to. Each call either returns the new
    contents and a value, or raises the exception the base class raises. */
module BaseList {
  import opened Base

  datatype Res<T, R> = Ok(items: seq<T>, value: R) | Fail(fault: Fault)

  /** IndexOf: the position of the first element equal to x, or -1. */
  function IndexOf<T(==)>(s: seq<T>, x: T): (r: int)
    ensures -1 <= r < |s|
    ensures r == -1 <==> x !in s
    ensures r >= 0 ==> s[r] == x && forall j :: 0 <= j < r ==> s[j] != x
  {
    if |s| == 0 then -1
    else if s[0] == x then 0
    else
      var k := IndexOf(s[1..], x);
      if k == -1 then -1 else k + 1
  }

  /** Add: the item goes after every existing element. */
  function Append<T>(s: seq<T>, x: T): (r: Res<T, ()>)
    ensures r.Ok? && |r.items| == |s| + 1 && r.items[|s|] == x
    ensures r.Ok? && forall j :: 0 <= j < |s| ==> r.items[j] == s[j]
  {
    Ok(s + [x], ())
  }

  /** Insert: valid positions are 0..Count inclusive; later elements shift up. */
  function Insert<T>(s: seq<T>, i: int, x: T): (r: Res<T, ()>)
    ensures r.Ok? <==> 0 <= i <= |s|
    ensures r.Fail? ==> r.fault == ArgumentOutOfRange
    ensures r.Ok? ==> |r.items| == |s| + 1 && r.items[i] == x
    ensures r.Ok? ==> forall j :: 0 <= j < i ==> r.items[j] == s[j]
    ensures r.Ok? ==> forall j :: i < j <= |s| ==> r.items[j] == s[j - 1]
  {
    if 0 <= i <= |s| then Ok(s[..i] + [x] + s[i..], ()) else Fail(ArgumentOutOfRange)
  }

  /** RemoveAt: valid positions are 0..Count-1; later elements shift down. */
  function RemoveAt<T>(s: seq<T>, i: int): (r: Res<T, ()>)
    ensures r.Ok? <==> 0 <= i < |s|
    ensures r.Fail? ==> r.fault == ArgumentOutOfRange
    ensures r.Ok? ==> |r.items| + 1 == |s|
    ensures r.Ok? ==> forall j :: 0 <= j < i ==> r.items[j] == s[j]
    ensures r.Ok? ==> forall j :: i <= j < |r.items| ==> r.items[j] == s[j + 1]
  {
    if 0 <= i < |s| then Ok(s[..i] + s[i + 1..], ()) else Fail(ArgumentOutOfRange)
  }

  /** Remove: removes the first element equal to x and reports whether there was one. */
  function Remove<T(==)>(s: seq<T>, x: T): (r: Res<T, bool>)
    ensures r.Ok?
    ensures r.value <==> x in s
    ensures !r.value ==> r.items == s
    ensures r.value ==> multiset(r.items) == multiset(s) - multiset{x}
    ensures r.value ==> exists k :: 0 <= k < |s| && s[k] == x && x !in s[..k] && r.items == s[..k] + s[k + 1..]
  {
    var k := IndexOf(s, x);
    if k < 0 then Ok(s, false)
    else
      assert s == s[..k] + [s[k]] + s[k + 1..];
      Ok(s[..k] + s[k + 1..], true)
  }

  /** The indexer getter: valid positions are 0..Count-1. */
  function Get<T>(s: seq<T>, i: int): (r: Res<T, T>)
    ensures r.Ok? <==> 0 <= i < |s|
    ensures r.Fail? ==> r.fault == ArgumentOutOfRange
    ensures r.Ok? ==> r.items == s && r.value == s[i]
  {
    if 0 <= i < |s| then Ok(s, s[i]) else Fail(ArgumentOutOfRange)
  }

  /** The indexer setter: valid positions are 0..Count-1; only that slot changes. */
  function Set<T>(s: seq<T>, i: int, v: T): (r: Res<T, ()>)
    ensures r.Ok? <==> 0 <= i < |s|
    ensures r.Fail? ==> r.fault == ArgumentOutOfRange
    ensures r.Ok? ==> |r.items| == |s| && r.items[i] == v
    ensures r.Ok? ==> forall j :: 0 <= j < |s| && j != i ==> r.items[j] == s[j]
  {
    if 0 <= i < |s| then Ok(s[i := v], ()) else Fail(ArgumentOutOfRange)
  }

  /** CopyTo: copies every element into the destination array starting at
      offset `at`, in the order Array.Copy checks its arguments: a null
      array, then a negative offset, then too little room. The value is the
      destination array's new contents; the collection is unchanged. */
  function CopyTo<T>(s: seq<T>, dest: Option<seq<T>>, at: int): (r: Res<T, seq<T>>)
    ensures dest.None? ==> r == Fail(ArgumentNull)
    ensures dest.Some? && at < 0 ==> r == Fail(ArgumentOutOfRange)
    ensures dest.Some? && 0 <= at && |dest.value| - at < |s| ==> r == Fail(Argument)
    ensures r.Ok? <==> dest.Some? && 0 <= at && at + |s| <= |dest.value|
    ensures r.Ok? ==> r.items == s && |r.value| == |dest.value|
    ensures r.Ok? ==> forall j :: 0 <= j < |s| ==> r.value[at + j] == s[j]
    ensures r.Ok? ==> forall j :: 0 <= j < |r.value| && !(at <= j < at + |s|) ==> r.value[j] == dest.value[j]
  {
    match dest
    case None => Fail(ArgumentNull)
    case Some(a) =>
      if at < 0 then Fail(ArgumentOutOfRange)
      else if |a| - at < |s| then Fail(Argument)
      else Ok(s, a[..at] + s + a[at + |s|..])
  }

  /** Removing at the position an insertion used gives back the original contents. */
  lemma InsertThenRemoveAt<T>(s: seq<T>, i: int, x: T)
    requires 0 <= i <= |s|
    ensures RemoveAt(Insert(s, i, x).items, i) == Ok(s, ())
  {
  }

  /** Re-inserting the element a removal took out gives back the original contents. */
  lemma RemoveAtThenInsert<T>(s: seq<T>, i: int)
    requires 0 <= i < |s|
    ensures Insert(RemoveAt(s, i).items, i, s[i]) == Ok(s, ())
  {
  }

  /** Remove agrees with locating the element by IndexOf and removing that position. */
  lemma RemoveIsRemoveAtIndexOf<T>(s: seq<T>, x: T)
    ensures IndexOf(s, x) >= 0 ==> Remove(s, x) == Ok(RemoveAt(s, IndexOf(s, x)).items, true)
    ensures IndexOf(s, x) < 0 ==> Remove(s, x) == Ok(s, false)
  {
  }

  /** Reading a slot back after writing it gives the written value; writing a
      slot's own value changes nothing. */
  lemma SetThenGet<T>(s: seq<T>, i: int, v: T)
    requires 0 <= i < |s|
    ensures Get(Set(s, i, v).items, i) == Ok(Set(s, i, v).items, v)
    ensures Set(s, i, s[i]) == Ok(s, ())
  {
  }
}
