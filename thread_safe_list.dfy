/**
 * The list wrapper of Chummer/Backend/Datastructures/ThreadSafeList.cs. Every call is taken to be
 * atomic; the reader-writer lock is represented only by a ghost trace of the lock modes each
 * state-changing call enters, so that the model can say when the exclusive write phase is reached.
 */
module ThreadSafeLists {
  import opened Common

  /** The lock modes the list acquires: read, upgradeable read and exclusive write. */
  datatype LockMode = Read | UpgradeableRead | Write

  /** Failures a call can raise: a disposed lock, a bad index or capacity, a null collection, a cancelled token. */
  datatype Error = ObjectDisposed | ArgumentOutOfRange | ArgumentNull | Cancelled

  type Outcome<R> = Result<R, Error>

  /** The number of exclusive write phases in a lock trace. */
  function WritePhases(trace: seq<LockMode>): nat {
    if trace == [] then 0
    else WritePhases(trace[..|trace| - 1]) + (if trace[|trace| - 1] == Write then 1 else 0)
  }

  /** Write phases of a concatenated trace add up. */
  lemma {:induction false} WritePhasesAppend(a: seq<LockMode>, b: seq<LockMode>)
    ensures WritePhases(a + b) == WritePhases(a) + WritePhases(b)
  {
    if b == [] {
      assert a + b == a;
    } else {
      assert (a + b)[..|a + b| - 1] == a + b[..|b| - 1];
      WritePhasesAppend(a, b[..|b| - 1]);
    }
  }

  /** A trace made only of read and upgradeable-read phases enters no write phase. */
  lemma {:induction false} NoWritePhases(t: seq<LockMode>)
    requires Write !in t
    ensures WritePhases(t) == 0
  {
    if t != [] {
      assert t[..|t| - 1] + [t[|t| - 1]] == t;
      NoWritePhases(t[..|t| - 1]);
    }
  }

  /** One read, one upgradeable and one exclusive phase: a single write phase. */
  lemma UpgradeToWrite()
    ensures WritePhases([Read, UpgradeableRead, Write]) == 1
  {
    NoWritePhases([Read, UpgradeableRead]);
    assert [Write][..0] == [];
    WritePhasesAppend([Read, UpgradeableRead], [Write]);
    assert [Read, UpgradeableRead] + [Write] == [Read, UpgradeableRead, Write];
  }

  /**
   * The backing array size after `List<T>` makes room for `min` elements: an empty buffer grows
   * to 4, a full one doubles, and never to less than `min`.
   */
  function Grown(capacity: nat, min: nat): (r: nat)
    ensures r >= min && r >= capacity
    ensures capacity >= min ==> r == capacity
  {
    if capacity >= min then capacity
    else
      var doubled := if capacity == 0 then 4 else 2 * capacity;
      if doubled < min then min else doubled
  }

  /** The first index at or after `start` whose element satisfies `matches`, or -1. */
  function FirstIndexFrom<T>(s: seq<T>, matches: T -> bool, start: nat): (r: int)
    requires start <= |s|
    ensures r == -1 || start <= r < |s|
    ensures r >= 0 ==> matches(s[r]) && forall k :: start <= k < r ==> !matches(s[k])
    ensures r == -1 <==> forall k :: start <= k < |s| ==> !matches(s[k])
    decreases |s| - start
  {
    if start == |s| then -1
    else if matches(s[start]) then start
    else FirstIndexFrom(s, matches, start + 1)
  }

  /** The last index at or before `start` whose element satisfies `matches`, or -1. */
  function LastIndexUpTo<T>(s: seq<T>, matches: T -> bool, start: int): (r: int)
    requires -1 <= start < |s|
    ensures -1 <= r <= start
    ensures r >= 0 ==> matches(s[r]) && forall k :: r < k <= start ==> !matches(s[k])
    ensures r == -1 <==> forall k :: 0 <= k <= start ==> !matches(s[k])
    decreases start + 1
  {
    if start == -1 then -1
    else if matches(s[start]) then start
    else LastIndexUpTo(s, matches, start - 1)
  }

  class ThreadSafeList<T(==)> {
    /** `_lstData`: the elements, in order. */
    var data: seq<T>
    /** `_lstData.Capacity`: the size of the backing array. */
    var capacity: nat
    /** `_intIsDisposed > 0`. */
    var isDisposed: bool
    /** The lock modes entered by the state-changing calls so far. */
    ghost var trace: seq<LockMode>
    /** How many times the owned lock object has been disposed. */
    ghost var lockDisposals: nat

    ghost predicate Valid()
      reads this
    {
      |data| <= capacity && lockDisposals == (if isDisposed then 1 else 0)
    }

    /** `ThreadSafeList(int capacity)`: an empty list with the given backing size. */
    constructor (initialCapacity: nat)
      ensures Valid()
      ensures data == [] && capacity == initialCapacity && !isDisposed && trace == []
    {
      data := [];
      capacity := initialCapacity;
      isDisposed := false;
      trace := [];
      lockDisposals := 0;
    }

    /** `ThreadSafeList()`: an empty list whose backing array is not allocated yet. */
    constructor Empty()
      ensures Valid()
      ensures data == [] && capacity == 0 && !isDisposed && trace == []
    {
      data := [];
      capacity := 0;
      isDisposed := false;
      trace := [];
      lockDisposals := 0;
    }

    /**
     * `ThreadSafeList(collection)` for a collection that knows its count: a copy in enumeration
     * order, with a backing array of exactly that size.
     */
    constructor FromItems(items: seq<T>)
      ensures Valid()
      ensures data == items && capacity == |items| && !isDisposed && trace == []
    {
      data := items;
      capacity := |items|;
      isDisposed := false;
      trace := [];
      lockDisposals := 0;
    }

    /** `Add(item)`: under the write lock, append `item`, growing the backing array when full. */
    method Add(item: T) returns (r: Outcome<()>)
      requires Valid()
      modifies this
      ensures Valid() && isDisposed == old(isDisposed)
      ensures old(isDisposed) ==> r == Err(ObjectDisposed) && unchanged(this)
      ensures !old(isDisposed) ==>
        && r == Ok(())
        && data == old(data) + [item]
        && capacity == Grown(old(capacity), |old(data)| + 1)
        && trace == old(trace) + [Write]
    {
      if isDisposed {
        return Err(ObjectDisposed);
      }
      trace := trace + [Write];
      capacity := Grown(capacity, |data| + 1);
      data := data + [item];
      return Ok(());
    }

    /** `TryAdd(item)`: `Add`, then report success; it never reports false. */
    method TryAdd(item: T) returns (r: Outcome<bool>)
      requires Valid()
      modifies this
      ensures Valid() && isDisposed == old(isDisposed)
      ensures old(isDisposed) ==> r == Err(ObjectDisposed) && unchanged(this)
      ensures !old(isDisposed) ==>
        && r == Ok(true)
        && data == old(data) + [item]
        && capacity == Grown(old(capacity), |old(data)| + 1)
        && trace == old(trace) + [Write]
    {
      var added := Add(item);
      if added.Err? {
        return Err(added.error);
      }
      return Ok(true);
    }

    /**
     * `IList.Add(object value)`: a value that is not a `T` (`None`) gives -1 and changes nothing;
     * otherwise, under the upgradeable lock, `Add` it and give the index of the new last element.
     */
    method AddObject(value: Option<T>) returns (r: Outcome<int>)
      requires Valid()
      modifies this
      ensures Valid() && isDisposed == old(isDisposed)
      ensures value.None? ==> r == Ok(-1) && unchanged(this)
      ensures value.Some? && old(isDisposed) ==> r == Err(ObjectDisposed) && unchanged(this)
      ensures value.Some? && !old(isDisposed) ==>
        && data == old(data) + [value.value]
        && capacity == Grown(old(capacity), |old(data)| + 1)
        && r == Ok(|data| - 1)
        && data[r.value] == value.value
        && trace == old(trace) + [UpgradeableRead, Write]
    {
      if value.None? {
        return Ok(-1);
      }
      if isDisposed {
        return Err(ObjectDisposed);
      }
      trace := trace + [UpgradeableRead];
      var added := Add(value.value);
      assert trace == old(trace) + [UpgradeableRead, Write];
      return Ok(|data| - 1);
    }

    /** The indexer getter. */
    method GetItem(index: int) returns (r: Outcome<T>)
      requires Valid()
      ensures isDisposed ==> r == Err(ObjectDisposed)
      ensures !isDisposed && !(0 <= index < |data|) ==> r == Err(ArgumentOutOfRange)
      ensures !isDisposed && 0 <= index < |data| ==> r == Ok(data[index])
    {
      if isDisposed {
        return Err(ObjectDisposed);
      }
      if !(0 <= index < |data|) {
        return Err(ArgumentOutOfRange);
      }
      return Ok(data[index]);
    }

    /**
     * The indexer setter: check under a read lock whether the element already equals `value`;
     * if not, re-check under the upgradeable lock and only then write under the write lock.
     * A no-op set never enters the write phase; otherwise only position `index` changes.
     */
    method SetItem(index: int, value: T) returns (r: Outcome<()>)
      requires Valid()
      modifies this
      ensures Valid() && isDisposed == old(isDisposed) && capacity == old(capacity)
      ensures old(isDisposed) ==> r == Err(ObjectDisposed) && unchanged(this)
      ensures !old(isDisposed) && !(0 <= index < |old(data)|) ==>
        r == Err(ArgumentOutOfRange) && data == old(data) && trace == old(trace) + [Read]
      ensures !old(isDisposed) && 0 <= index < |old(data)| && old(data)[index] == value ==>
        && r == Ok(()) && data == old(data)
        && trace == old(trace) + [Read]
        && WritePhases(trace) == WritePhases(old(trace))
      ensures !old(isDisposed) && 0 <= index < |old(data)| && old(data)[index] != value ==>
        && r == Ok(()) && data == old(data)[index := value]
        && trace == old(trace) + [Read, UpgradeableRead, Write]
        && WritePhases(trace) == WritePhases(old(trace)) + 1
    {
      if isDisposed {
        return Err(ObjectDisposed);
      }
      trace := trace + [Read];
      if !(0 <= index < |data|) {
        return Err(ArgumentOutOfRange);
      }
      if data[index] == value {
        WritePhasesAppend(old(trace), [Read]);
        return Ok(());
      }
      trace := trace + [UpgradeableRead];
      if data[index] == value {
        return Ok(());
      }
      trace := trace + [Write];
      data := data[index := value];
      assert trace == old(trace) + [Read, UpgradeableRead, Write];
      WritePhasesAppend(old(trace), [Read, UpgradeableRead, Write]);
      UpgradeToWrite();
      return Ok(());
    }

    /** The `Capacity` getter. */
    method GetCapacity() returns (r: Outcome<nat>)
      requires Valid()
      ensures isDisposed ==> r == Err(ObjectDisposed)
      ensures !isDisposed ==> r == Ok(capacity) && r.value >= |data|
    {
      if isDisposed {
        return Err(ObjectDisposed);
      }
      return Ok(capacity);
    }

    /**
     * The `Capacity` setter, with the same read / upgradeable / write pattern as the indexer.
     * `List<T>` refuses a capacity below `Count` with ArgumentOutOfRangeException, inside the write phase.
     */
    method SetCapacity(value: Int32) returns (r: Outcome<()>)
      requires Valid()
      modifies this
      ensures Valid() && isDisposed == old(isDisposed) && data == old(data)
      ensures old(isDisposed) ==> r == Err(ObjectDisposed) && unchanged(this)
      ensures !old(isDisposed) && value == old(capacity) ==>
        && r == Ok(()) && capacity == old(capacity)
        && trace == old(trace) + [Read]
        && WritePhases(trace) == WritePhases(old(trace))
      ensures !old(isDisposed) && value != old(capacity) ==>
        && trace == old(trace) + [Read, UpgradeableRead, Write]
        && WritePhases(trace) == WritePhases(old(trace)) + 1
      ensures !old(isDisposed) && value != old(capacity) && value < |old(data)| ==>
        r == Err(ArgumentOutOfRange) && capacity == old(capacity)
      ensures !old(isDisposed) && value != old(capacity) && value >= |old(data)| ==>
        r == Ok(()) && capacity == value
    {
      if isDisposed {
        return Err(ObjectDisposed);
      }
      trace := trace + [Read];
      if capacity == value {
        WritePhasesAppend(old(trace), [Read]);
        return Ok(());
      }
      trace := trace + [UpgradeableRead];
      if capacity == value {
        return Ok(());
      }
      trace := trace + [Write];
      assert trace == old(trace) + [Read, UpgradeableRead, Write];
      WritePhasesAppend(old(trace), [Read, UpgradeableRead, Write]);
      UpgradeToWrite();
      if value < |data| {
        return Err(ArgumentOutOfRange);
      }
      capacity := value;
      return Ok(());
    }

    /** `Count`. */
    method Count() returns (r: Outcome<nat>)
      requires Valid()
      ensures isDisposed ==> r == Err(ObjectDisposed)
      ensures !isDisposed ==> r == Ok(|data|)
    {
      if isDisposed {
        return Err(ObjectDisposed);
      }
      return Ok(|data|);
    }

    /** `Contains(item)`. */
    method Contains(item: T) returns (r: Outcome<bool>)
      requires Valid()
      ensures isDisposed ==> r == Err(ObjectDisposed)
      ensures !isDisposed ==> r == Ok(item in data)
    {
      if isDisposed {
        return Err(ObjectDisposed);
      }
      var i := IndexOf(item);
      return Ok(i.value >= 0);
    }

    /** `IndexOf(item)`: the first position holding `item`, or -1. */
    method IndexOf(item: T) returns (r: Outcome<int>)
      requires Valid()
      ensures isDisposed ==> r == Err(ObjectDisposed)
      ensures !isDisposed ==> r.Ok? && -1 <= r.value < |data|
      ensures !isDisposed ==> (r.value == -1 <==> item !in data)
      ensures !isDisposed && r.value >= 0 ==> data[r.value] == item && item !in data[..r.value]
    {
      if isDisposed {
        return Err(ObjectDisposed);
      }
      var i := 0;
      while i < |data|
        invariant 0 <= i <= |data|
        invariant item !in data[..i]
      {
        if data[i] == item {
          return Ok(i);
        }
        assert data[..i + 1] == data[..i] + [data[i]];
        i := i + 1;
      }
      assert data[..i] == data;
      return Ok(-1);
    }

    /** `Insert(index, item)`: `index` may be anything from 0 to `Count`. */
    method Insert(index: int, item: T) returns (r: Outcome<()>)
      requires Valid()
      modifies this
      ensures Valid() && isDisposed == old(isDisposed)
      ensures old(isDisposed) ==> r == Err(ObjectDisposed) && unchanged(this)
      ensures !old(isDisposed) ==> trace == old(trace) + [Write]
      ensures !old(isDisposed) && !(0 <= index <= |old(data)|) ==>
        r == Err(ArgumentOutOfRange) && data == old(data) && capacity == old(capacity)
      ensures !old(isDisposed) && 0 <= index <= |old(data)| ==>
        && r == Ok(())
        && data == old(data)[..index] + [item] + old(data)[index..]
        && capacity == Grown(old(capacity), |old(data)| + 1)
    {
      if isDisposed {
        return Err(ObjectDisposed);
      }
      trace := trace + [Write];
      if !(0 <= index <= |data|) {
        return Err(ArgumentOutOfRange);
      }
      capacity := Grown(capacity, |data| + 1);
      data := data[..index] + [item] + data[index..];
      return Ok(());
    }

    /** `Remove(item)`: drop the first occurrence of `item`, reporting whether there was one. */
    method Remove(item: T) returns (r: Outcome<bool>)
      requires Valid()
      modifies this
      ensures Valid() && isDisposed == old(isDisposed) && capacity == old(capacity)
      ensures old(isDisposed) ==> r == Err(ObjectDisposed) && unchanged(this)
      ensures !old(isDisposed) ==> trace == old(trace) + [Write] && r == Ok(item in old(data))
      ensures !old(isDisposed) && item !in old(data) ==> data == old(data)
      ensures !old(isDisposed) && item in old(data) ==>
        data == RemovedAt(old(data), IndexOfItem(old(data), item))
    {
      if isDisposed {
        return Err(ObjectDisposed);
      }
      trace := trace + [Write];
      var i := IndexOfItem(data, item);
      if i < 0 {
        return Ok(false);
      }
      data := RemovedAt(data, i);
      return Ok(true);
    }

    /** `RemoveAt(index)`. */
    method RemoveAt(index: int) returns (r: Outcome<()>)
      requires Valid()
      modifies this
      ensures Valid() && isDisposed == old(isDisposed) && capacity == old(capacity)
      ensures old(isDisposed) ==> r == Err(ObjectDisposed) && unchanged(this)
      ensures !old(isDisposed) ==> trace == old(trace) + [Write]
      ensures !old(isDisposed) && !(0 <= index < |old(data)|) ==>
        r == Err(ArgumentOutOfRange) && data == old(data)
      ensures !old(isDisposed) && 0 <= index < |old(data)| ==>
        r == Ok(()) && data == RemovedAt(old(data), index)
    {
      if isDisposed {
        return Err(ObjectDisposed);
      }
      trace := trace + [Write];
      if !(0 <= index < |data|) {
        return Err(ArgumentOutOfRange);
      }
      data := RemovedAt(data, index);
      return Ok(());
    }

    /** `Clear()`: the backing array keeps its size. */
    method Clear() returns (r: Outcome<()>)
      requires Valid()
      modifies this
      ensures Valid() && isDisposed == old(isDisposed) && capacity == old(capacity)
      ensures old(isDisposed) ==> r == Err(ObjectDisposed) && unchanged(this)
      ensures !old(isDisposed) ==> r == Ok(()) && data == [] && trace == old(trace) + [Write]
    {
      if isDisposed {
        return Err(ObjectDisposed);
      }
      trace := trace + [Write];
      data := [];
      return Ok(());
    }

    /**
     * `TryTake(out item)`: first-in first-out. An empty list is detected under the read lock
     * and the call gives `None` without reaching the write phase; otherwise the first element is
     * removed under the write lock and returned.
     */
    method TryTake() returns (r: Outcome<Option<T>>)
      requires Valid()
      modifies this
      ensures Valid() && isDisposed == old(isDisposed) && capacity == old(capacity)
      ensures old(isDisposed) ==> r == Err(ObjectDisposed) && unchanged(this)
      ensures !old(isDisposed) && old(data) == [] ==>
        && r == Ok(None) && data == old(data)
        && trace == old(trace) + [Read]
        && WritePhases(trace) == WritePhases(old(trace))
      ensures !old(isDisposed) && old(data) != [] ==>
        && r == Ok(Some(old(data)[0]))
        && data == old(data)[1..]
        && trace == old(trace) + [Read, UpgradeableRead, Write]
        && WritePhases(trace) == WritePhases(old(trace)) + 1
    {
      if isDisposed {
        return Err(ObjectDisposed);
      }
      trace := trace + [Read];
      if |data| == 0 {
        WritePhasesAppend(old(trace), [Read]);
        return Ok(None);
      }
      trace := trace + [UpgradeableRead];
      if |data| > 0 {
        var item := data[0];
        trace := trace + [Write];
        data := data[1..];
        assert trace == old(trace) + [Read, UpgradeableRead, Write];
        WritePhasesAppend(old(trace), [Read, UpgradeableRead, Write]);
        UpgradeToWrite();
        return Ok(Some(item));
      }
      return Ok(None);
    }

    /**
     * `SequenceEqual(other)`: false for a null list; otherwise equal lengths and equal elements
     * at every index, read under both lists' read locks.
     */
    method SequenceEqual(other: ThreadSafeList?<T>) returns (r: Outcome<bool>)
      requires Valid()
      requires other != null ==> other.Valid()
      ensures other == null ==> r == Ok(false)
      ensures other != null && (other.isDisposed || isDisposed) ==> r == Err(ObjectDisposed)
      ensures other != null && !other.isDisposed && !isDisposed ==>
        r.Ok? && (r.value <==> |data| == |other.data| && forall i :: 0 <= i < |data| ==> data[i] == other.data[i])
    {
      if other == null {
        return Ok(false);
      }
      if other.isDisposed || isDisposed {
        return Err(ObjectDisposed);
      }
      if |data| != |other.data| {
        return Ok(false);
      }
      var i := 0;
      while i < |data|
        invariant 0 <= i <= |data|
        invariant forall k :: 0 <= k < i ==> data[k] == other.data[k]
      {
        if data[i] != other.data[i] {
          return Ok(false);
        }
        i := i + 1;
      }
      return Ok(true);
    }

    /** The linear search behind `List<T>.FindIndex(startIndex, matches)`. */
    method SearchForward(start: nat, matches: T -> bool) returns (r: int)
      requires start <= |data|
      ensures r == FirstIndexFrom(data, matches, start)
    {
      var i := start;
      while i < |data|
        invariant start <= i <= |data|
        invariant FirstIndexFrom(data, matches, start) == FirstIndexFrom(data, matches, i)
      {
        if matches(data[i]) {
          return i;
        }
        i := i + 1;
      }
      return -1;
    }

    /** The linear search behind `List<T>.FindLastIndex(startIndex, matches)`. */
    method SearchBackward(start: int, matches: T -> bool) returns (r: int)
      requires -1 <= start < |data|
      ensures r == LastIndexUpTo(data, matches, start)
    {
      var i := start;
      while i >= 0
        invariant -1 <= i <= start
        invariant LastIndexUpTo(data, matches, start) == LastIndexUpTo(data, matches, i)
      {
        if matches(data[i]) {
          return i;
        }
        i := i - 1;
      }
      return -1;
    }

    /** `FindIndex(matches)`: the first matching position, or -1. */
    method FindIndex(matches: T -> bool) returns (r: Outcome<int>)
      requires Valid()
      ensures isDisposed ==> r == Err(ObjectDisposed)
      ensures !isDisposed ==> r == Ok(FirstIndexFrom(data, matches, 0))
    {
      if isDisposed {
        return Err(ObjectDisposed);
      }
      var i := SearchForward(0, matches);
      return Ok(i);
    }

    /** `FindIndex(startIndex, matches)`: `startIndex` may be anything from 0 to `Count`. */
    method FindIndexFrom(start: int, matches: T -> bool) returns (r: Outcome<int>)
      requires Valid()
      ensures isDisposed ==> r == Err(ObjectDisposed)
      ensures !isDisposed && !(0 <= start <= |data|) ==> r == Err(ArgumentOutOfRange)
      ensures !isDisposed && 0 <= start <= |data| ==> r == Ok(FirstIndexFrom(data, matches, start))
    {
      if isDisposed {
        return Err(ObjectDisposed);
      }
      if !(0 <= start <= |data|) {
        return Err(ArgumentOutOfRange);
      }
      var i := SearchForward(start, matches);
      return Ok(i);
    }

    /**
     * `FindLastIndex(matches)` AS WRITTEN: it delegates to `FindIndex`, so it gives the FIRST
     * matching position, not the last.
     */
    method FindLastIndex(matches: T -> bool) returns (r: Outcome<int>)
      requires Valid()
      ensures isDisposed ==> r == Err(ObjectDisposed)
      ensures !isDisposed ==> r == Ok(FirstIndexFrom(data, matches, 0))
    {
      r := FindIndex(matches);
    }

    /**
     * `FindLastIndex(startIndex, matches)` AS WRITTEN: it delegates to `FindIndex(startIndex, matches)`,
     * so it searches forward from `startIndex` and gives the first match there.
     */
    method FindLastIndexFrom(start: int, matches: T -> bool) returns (r: Outcome<int>)
      requires Valid()
      ensures isDisposed ==> r == Err(ObjectDisposed)
      ensures !isDisposed && !(0 <= start <= |data|) ==> r == Err(ArgumentOutOfRange)
      ensures !isDisposed && 0 <= start <= |data| ==> r == Ok(FirstIndexFrom(data, matches, start))
    {
      r := FindIndexFrom(start, matches);
    }

    /** `FindLastIndexAsync(matches)`: the LAST matching position, or -1. */
    method FindLastIndexAsync(matches: T -> bool, cancelled: bool) returns (r: Outcome<int>)
      requires Valid()
      ensures isDisposed ==> r == Err(ObjectDisposed)
      ensures !isDisposed && cancelled ==> r == Err(Cancelled)
      ensures !isDisposed && !cancelled ==> r == Ok(LastIndexUpTo(data, matches, |data| - 1))
    {
      if isDisposed {
        return Err(ObjectDisposed);
      }
      if cancelled {
        return Err(Cancelled);
      }
      var i := SearchBackward(|data| - 1, matches);
      return Ok(i);
    }

    /**
     * `FindLastIndexAsync(startIndex, matches)`: the last match at or before `startIndex`. On a
     * non-empty list `startIndex` must be a valid position; on an empty one only -1 is accepted.
     */
    method FindLastIndexFromAsync(start: int, matches: T -> bool, cancelled: bool) returns (r: Outcome<int>)
      requires Valid()
      ensures isDisposed ==> r == Err(ObjectDisposed)
      ensures !isDisposed && cancelled ==> r == Err(Cancelled)
      ensures !isDisposed && !cancelled && |data| == 0 ==> r == (if start == -1 then Ok(-1) else Err(ArgumentOutOfRange))
      ensures !isDisposed && !cancelled && |data| > 0 && !(0 <= start < |data|) ==> r == Err(ArgumentOutOfRange)
      ensures !isDisposed && !cancelled && |data| > 0 && 0 <= start < |data| ==>
        r == Ok(LastIndexUpTo(data, matches, start))
    {
      if isDisposed {
        return Err(ObjectDisposed);
      }
      if cancelled {
        return Err(Cancelled);
      }
      if |data| == 0 {
        return if start == -1 then Ok(-1) else Err(ArgumentOutOfRange);
      }
      if !(0 <= start < |data|) {
        return Err(ArgumentOutOfRange);
      }
      var i := SearchBackward(start, matches);
      return Ok(i);
    }

    /** `Dispose()`: the first call marks the list disposed and disposes its lock; later calls do nothing. */
    method Dispose()
      requires Valid()
      modifies this
      ensures Valid() && isDisposed && lockDisposals == 1
      ensures data == old(data) && capacity == old(capacity) && trace == old(trace)
      ensures old(isDisposed) ==> unchanged(this)
    {
      if isDisposed {
        return;
      }
      isDisposed := true;
      lockDisposals := lockDisposals + 1;
    }
  }

  /** `new ThreadSafeList<T>(capacity)`: `new List<T>(capacity)` throws ArgumentOutOfRange for a negative value. */
  method NewWithCapacity<T(==)>(capacity: Int32) returns (r: Outcome<ThreadSafeList<T>>)
    ensures r.Err? <==> capacity < 0
    ensures r.Err? ==> r.error == ArgumentOutOfRange
    ensures r.Ok? ==> fresh(r.value) && r.value.Valid() && !r.value.isDisposed
    ensures r.Ok? ==> r.value.data == [] && r.value.capacity == capacity && r.value.trace == []
  {
    if capacity < 0 {
      return Err(ArgumentOutOfRange);
    }
    var l := new ThreadSafeList<T>(capacity);
    return Ok(l);
  }

  /** `new ThreadSafeList<T>(collection)`: `new List<T>(collection)` throws ArgumentNull for a null collection. */
  method NewFromCollection<T(==)>(collection: Option<seq<T>>) returns (r: Outcome<ThreadSafeList<T>>)
    ensures r.Err? <==> collection.None?
    ensures r.Err? ==> r.error == ArgumentNull
    ensures r.Ok? ==> fresh(r.value) && r.value.Valid() && !r.value.isDisposed
    ensures r.Ok? ==> r.value.data == collection.value && r.value.capacity == |collection.value| && r.value.trace == []
  {
    if collection.None? {
      return Err(ArgumentNull);
    }
    var l := new ThreadSafeList<T>.FromItems(collection.value);
    return Ok(l);
  }

  /**
   * The synchronous and asynchronous `FindLastIndex` disagree: on `[x, x]` with a predicate that
   * accepts everything, the first gives 0 and the second 1.
   */
  lemma FindLastIndexDisagreement<T>(x: T)
    ensures var s, all := [x, x], (_: T) => true;
      FirstIndexFrom(s, all, 0) == 0 && LastIndexUpTo(s, all, |s| - 1) == 1
  {
  }

  /** The two searches agree when exactly one element matches. */
  lemma {:induction false} FirstAndLastAgreeOnUniqueMatch<T>(s: seq<T>, matches: T -> bool, i: nat)
    requires i < |s| && matches(s[i])
    requires forall k :: 0 <= k < |s| && k != i ==> !matches(s[k])
    ensures FirstIndexFrom(s, matches, 0) == i == LastIndexUpTo(s, matches, |s| - 1)
  {
  }

  /** A client run: FIFO order of `TryTake` after three adds, then an empty take. */
  method FifoClient<T(==)>(a: T, b: T, c: T)
  {
    var l := new ThreadSafeList<T>(0);
    var _ := l.Add(a);
    var _ := l.Add(b);
    var _ := l.Add(c);
    var x := l.TryTake();
    assert x == Ok(Some(a));
    x := l.TryTake();
    assert x == Ok(Some(b));
    x := l.TryTake();
    assert x == Ok(Some(c));
    x := l.TryTake();
    assert x == Ok(None);
  }
}
