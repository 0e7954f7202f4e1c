/**
 * The asynchronous mutators of Chummer/Backend/Datastructures/EnhancedObservableCollection.cs.
 * `Items` is a sequence; every notification the collection raises is appended to a log, in the
 * order it is raised, whoever is subscribed. The base class's reentrancy check is a flag saying
 * whether it would throw, and a cancellation token is a flag that the entry check reads.
 */
module EnhancedObservableCollections {
  import opened Common
  import ConcurrentHashSets

  /** An async event handler, compared by reference. */
  type HandlerId = nat

  /** What a rejected call throws. */
  datatype Failure = Cancelled | InvalidOperation | ArgumentOutOfRange

  type Outcome<R> = Result<R, Failure>

  /** The notifications the collection raises. */
  datatype Notification<T> =
    | PropertiesChanged(names: seq<string>)
    /** `BeforeClearCollectionChanged`: a Remove event carrying the full pre-clear list. */
    | BeforeClear(oldItems: seq<T>)
    | Added(item: T, index: nat)
    | Removed(item: T, index: nat)
    | Replaced(oldItem: T, newItem: T, index: nat)
    | Moved(item: T, newIndex: nat, oldIndex: nat)
    | Reset

  /** The property names raised when the number of items changes. */
  const CountChanged: seq<string> := ["Count", "Item[]"]
  /** The property names raised when an item changes but the number does not. */
  const ItemChanged: seq<string> := ["Item[]"]

  /** The list after the element at `o` has been removed and re-inserted at `n`. */
  function MovedItem<T>(s: seq<T>, o: nat, n: nat): (r: seq<T>)
    requires o < |s| && n < |s|
    ensures |r| == |s| && r[n] == s[o]
    ensures multiset(r) == multiset(s)
  {
    var rest := RemovedAt(s, o);
    assert s == s[..o] + [s[o]] + s[o + 1..];
    assert multiset(s) == multiset(s[..o]) + multiset{s[o]} + multiset(s[o + 1..]);
    assert multiset(rest) == multiset(s[..o]) + multiset(s[o + 1..]);
    assert rest == rest[..n] + rest[n..];
    assert multiset(rest) == multiset(rest[..n]) + multiset(rest[n..]);
    var moved := rest[..n] + [s[o]] + rest[n..];
    assert multiset(moved) == multiset(rest[..n]) + multiset{s[o]} + multiset(rest[n..]);
    assert multiset(moved) == multiset(rest) + multiset{s[o]};
    moved
  }

  /** Moving an element onto its own position changes nothing. */
  lemma {:induction false} MoveToSamePlace<T>(s: seq<T>, i: nat)
    requires i < |s|
    ensures MovedItem(s, i, i) == s
  {
    assert RemovedAt(s, i)[..i] == s[..i];
    assert RemovedAt(s, i)[i..] == s[i + 1..];
    assert s == s[..i] + [s[i]] + s[i + 1..];
  }

  class EnhancedObservableCollection<T(==)> {
    /** `Items`. */
    var items: seq<T>
    /** The notifications raised so far, oldest first. */
    var log: seq<Notification<T>>
    /** Whether `CheckReentrancy` would throw (a handler of an event being raised is calling back). */
    var reentrancyBlocked: bool
    /** `_setCollectionChangedAsync`. */
    const collectionChangedAsync: ConcurrentHashSets.ConcurrentHashSet<HandlerId>
    /** `_setPropertyChangedAsync`. */
    const propertyChangedAsync: ConcurrentHashSets.ConcurrentHashSet<HandlerId>
    /** `_setMultiplePropertiesChangedAsync`. */
    const multiplePropertiesChangedAsync: ConcurrentHashSets.ConcurrentHashSet<HandlerId>
    /** `_setBeforeClearCollectionChangedAsync`. */
    const beforeClearCollectionChangedAsync: ConcurrentHashSets.ConcurrentHashSet<HandlerId>

    /** The four registries are separate sets. */
    ghost predicate Valid()
      reads this
    {
      && collectionChangedAsync != propertyChangedAsync
      && collectionChangedAsync != multiplePropertiesChangedAsync
      && collectionChangedAsync != beforeClearCollectionChangedAsync
      && propertyChangedAsync != multiplePropertiesChangedAsync
      && propertyChangedAsync != beforeClearCollectionChangedAsync
      && multiplePropertiesChangedAsync != beforeClearCollectionChangedAsync
    }

    /** `EnhancedObservableCollection(collection)`: the items of `collection`, nobody subscribed. */
    constructor (collection: seq<T>)
      ensures Valid()
      ensures items == collection && log == [] && !reentrancyBlocked
      ensures collectionChangedAsync.items == {} && propertyChangedAsync.items == {}
      ensures multiplePropertiesChangedAsync.items == {} && beforeClearCollectionChangedAsync.items == {}
    {
      items := collection;
      log := [];
      reentrancyBlocked := false;
      collectionChangedAsync := new ConcurrentHashSets.ConcurrentHashSet<HandlerId>();
      propertyChangedAsync := new ConcurrentHashSets.ConcurrentHashSet<HandlerId>();
      multiplePropertiesChangedAsync := new ConcurrentHashSets.ConcurrentHashSet<HandlerId>();
      beforeClearCollectionChangedAsync := new ConcurrentHashSets.ConcurrentHashSet<HandlerId>();
    }

    /** The entry checks of every async mutator: cancellation first, then reentrancy. */
    function EntryCheck(cancelled: bool): (r: Outcome<()>)
      reads this
      ensures r.Ok? <==> !cancelled && !reentrancyBlocked
      ensures cancelled ==> r == Err(Cancelled)
      ensures !cancelled && reentrancyBlocked ==> r == Err(InvalidOperation)
    {
      if cancelled then Err(Cancelled)
      else if reentrancyBlocked then Err(InvalidOperation)
      else Ok(())
    }

    /**
     * `InsertItemAsync(index, item)`: insert, then raise "Count"/"Item[]" and an Add event. A
     * rejected call, or an index outside `[0, Count]`, changes nothing and raises nothing.
     */
    method InsertItemAsync(index: int, item: T, cancelled: bool) returns (r: Outcome<()>)
      modifies this
      ensures reentrancyBlocked == old(reentrancyBlocked)
      ensures old(EntryCheck(cancelled)).Err? ==> r == old(EntryCheck(cancelled)) && items == old(items) && log == old(log)
      ensures old(EntryCheck(cancelled)).Ok? && !(0 <= index <= |old(items)|) ==>
        r == Err(ArgumentOutOfRange) && items == old(items) && log == old(log)
      ensures old(EntryCheck(cancelled)).Ok? && 0 <= index <= |old(items)| ==>
        && r == Ok(())
        && items == old(items)[..index] + [item] + old(items)[index..]
        && log == old(log) + [PropertiesChanged(CountChanged), Added(item, index)]
    {
      r := EntryCheck(cancelled);
      if r.Err? {
        return;
      }
      if !(0 <= index <= |items|) {
        return Err(ArgumentOutOfRange);
      }
      items := items[..index] + [item] + items[index..];
      log := log + [PropertiesChanged(CountChanged)];
      log := log + [Added(item, index)];
    }

    /**
     * `RemoveItemAsync(index)`: remove, then raise "Count"/"Item[]" and a Remove event carrying the
     * removed item and its index.
     */
    method RemoveItemAsync(index: int, cancelled: bool) returns (r: Outcome<()>)
      modifies this
      ensures reentrancyBlocked == old(reentrancyBlocked)
      ensures old(EntryCheck(cancelled)).Err? ==> r == old(EntryCheck(cancelled)) && items == old(items) && log == old(log)
      ensures old(EntryCheck(cancelled)).Ok? && !(0 <= index < |old(items)|) ==>
        r == Err(ArgumentOutOfRange) && items == old(items) && log == old(log)
      ensures old(EntryCheck(cancelled)).Ok? && 0 <= index < |old(items)| ==>
        && r == Ok(())
        && items == old(items)[..index] + old(items)[index + 1..]
        && log == old(log) + [PropertiesChanged(CountChanged), Removed(old(items)[index], index)]
    {
      r := EntryCheck(cancelled);
      if r.Err? {
        return;
      }
      if !(0 <= index < |items|) {
        return Err(ArgumentOutOfRange);
      }
      var obj := items[index];
      items := RemovedAt(items, index);
      log := log + [PropertiesChanged(CountChanged)];
      log := log + [Removed(obj, index)];
    }

    /** `SetItemAsync(index, item)`: replace one position, then raise "Item[]" and a Replace event. */
    method SetItemAsync(index: int, item: T, cancelled: bool) returns (r: Outcome<()>)
      modifies this
      ensures reentrancyBlocked == old(reentrancyBlocked)
      ensures old(EntryCheck(cancelled)).Err? ==> r == old(EntryCheck(cancelled)) && items == old(items) && log == old(log)
      ensures old(EntryCheck(cancelled)).Ok? && !(0 <= index < |old(items)|) ==>
        r == Err(ArgumentOutOfRange) && items == old(items) && log == old(log)
      ensures old(EntryCheck(cancelled)).Ok? && 0 <= index < |old(items)| ==>
        && r == Ok(())
        && items == old(items)[index := item]
        && log == old(log) + [PropertiesChanged(ItemChanged), Replaced(old(items)[index], item, index)]
    {
      r := EntryCheck(cancelled);
      if r.Err? {
        return;
      }
      if !(0 <= index < |items|) {
        return Err(ArgumentOutOfRange);
      }
      var oldItem := items[index];
      items := items[index := item];
      log := log + [PropertiesChanged(ItemChanged)];
      log := log + [Replaced(oldItem, item, index)];
    }

    /**
     * `MoveItemAsync(oldIndex, newIndex)`: remove at `oldIndex`, insert the same element at
     * `newIndex`, then raise "Item[]" and a Move event. The count and the multiset of items stay
     * the same. A bad `newIndex` is only noticed by the insert, after the removal: that element is
     * then gone and nothing is raised.
     */
    method MoveItemAsync(oldIndex: int, newIndex: int, cancelled: bool) returns (r: Outcome<()>)
      modifies this
      ensures reentrancyBlocked == old(reentrancyBlocked)
      ensures old(EntryCheck(cancelled)).Err? ==> r == old(EntryCheck(cancelled)) && items == old(items) && log == old(log)
      ensures old(EntryCheck(cancelled)).Ok? && !(0 <= oldIndex < |old(items)|) ==>
        r == Err(ArgumentOutOfRange) && items == old(items) && log == old(log)
      ensures old(EntryCheck(cancelled)).Ok? && 0 <= oldIndex < |old(items)| && !(0 <= newIndex < |old(items)|) ==>
        r == Err(ArgumentOutOfRange) && items == RemovedAt(old(items), oldIndex) && log == old(log)
      ensures old(EntryCheck(cancelled)).Ok? && 0 <= oldIndex < |old(items)| && 0 <= newIndex < |old(items)| ==>
        && r == Ok(())
        && items == MovedItem(old(items), oldIndex, newIndex)
        && |items| == |old(items)| && multiset(items) == multiset(old(items))
        && items[newIndex] == old(items)[oldIndex]
        && log == old(log) + [PropertiesChanged(ItemChanged), Moved(old(items)[oldIndex], newIndex, oldIndex)]
    {
      r := EntryCheck(cancelled);
      if r.Err? {
        return;
      }
      if !(0 <= oldIndex < |items|) {
        return Err(ArgumentOutOfRange);
      }
      var obj := items[oldIndex];
      items := RemovedAt(items, oldIndex);
      if !(0 <= newIndex <= |items|) {
        return Err(ArgumentOutOfRange);
      }
      items := items[..newIndex] + [obj] + items[newIndex..];
      log := log + [PropertiesChanged(ItemChanged)];
      log := log + [Moved(obj, newIndex, oldIndex)];
    }

    /**
     * `ClearItemsAsync()`: raise BeforeClear with the full list while it is still there, empty
     * `Items`, then raise "Count"/"Item[]" and finally Reset.
     */
    method ClearItemsAsync(cancelled: bool) returns (r: Outcome<()>)
      modifies this
      ensures reentrancyBlocked == old(reentrancyBlocked)
      ensures old(EntryCheck(cancelled)).Err? ==> r == old(EntryCheck(cancelled)) && items == old(items) && log == old(log)
      ensures old(EntryCheck(cancelled)).Ok? ==>
        && r == Ok(())
        && items == [] && |items| == 0
        && log == old(log) + [BeforeClear(old(items)), PropertiesChanged(CountChanged), Reset]
    {
      r := EntryCheck(cancelled);
      if r.Err? {
        return;
      }
      log := log + [BeforeClear(items)];
      items := [];
      log := log + [PropertiesChanged(CountChanged)];
      log := log + [Reset];
    }

    /** `AddAsync(item)`: `InsertItemAsync` at index `Count`. */
    method AddAsync(item: T, cancelled: bool) returns (r: Outcome<()>)
      modifies this
      ensures reentrancyBlocked == old(reentrancyBlocked)
      ensures old(EntryCheck(cancelled)).Err? ==> r == old(EntryCheck(cancelled)) && items == old(items) && log == old(log)
      ensures old(EntryCheck(cancelled)).Ok? ==>
        && r == Ok(())
        && items == old(items) + [item]
        && log == old(log) + [PropertiesChanged(CountChanged), Added(item, |old(items)|)]
    {
      if cancelled {
        return Err(Cancelled);
      }
      r := InsertItemAsync(|items|, item, cancelled);
      assert old(items)[..|old(items)|] == old(items) && old(items)[|old(items)|..] == [];
    }

    /**
     * `RemoveAsync(item)`: an absent item gives false without any check beyond cancellation and
     * without any notification; otherwise `RemoveItemAsync` at its first position, and true.
     */
    method RemoveAsync(item: T, cancelled: bool) returns (r: Outcome<bool>)
      modifies this
      ensures reentrancyBlocked == old(reentrancyBlocked)
      ensures cancelled ==> r == Err(Cancelled) && items == old(items) && log == old(log)
      ensures !cancelled && item !in old(items) ==> r == Ok(false) && items == old(items) && log == old(log)
      ensures !cancelled && item in old(items) && old(reentrancyBlocked) ==>
        r == Err(InvalidOperation) && items == old(items) && log == old(log)
      ensures !cancelled && item in old(items) && !old(reentrancyBlocked) ==>
        && r == Ok(true)
        && items == RemovedAt(old(items), IndexOfItem(old(items), item))
        && multiset(items) == multiset(old(items)) - multiset{item}
        && log == old(log) + [PropertiesChanged(CountChanged), Removed(item, IndexOfItem(old(items), item))]
    {
      if cancelled {
        return Err(Cancelled);
      }
      var index := IndexOfItem(items, item);
      if index < 0 {
        return Ok(false);
      }
      RemoveFirstOccurrence(items, item);
      var removed := RemoveItemAsync(index, cancelled);
      if removed.Err? {
        return Err(removed.error);
      }
      return Ok(true);
    }

    /** The `add` accessor of each async event: a set `TryAdd` on its registry (null is ignored). */
    method SubscribeCollectionChangedAsync(handler: Option<HandlerId>)
      requires Valid()
      modifies collectionChangedAsync
      ensures collectionChangedAsync.items ==
        if handler.Some? then old(collectionChangedAsync.items) + {handler.value} else old(collectionChangedAsync.items)
    {
      var _ := collectionChangedAsync.TryAdd(handler);
    }

    /** The `remove` accessor of `CollectionChangedAsync`. */
    method UnsubscribeCollectionChangedAsync(handler: Option<HandlerId>)
      requires Valid()
      modifies collectionChangedAsync
      ensures collectionChangedAsync.items ==
        if handler.Some? then old(collectionChangedAsync.items) - {handler.value} else old(collectionChangedAsync.items)
    {
      var _ := collectionChangedAsync.Remove(handler);
    }

    method SubscribePropertyChangedAsync(handler: Option<HandlerId>)
      requires Valid()
      modifies propertyChangedAsync
      ensures propertyChangedAsync.items ==
        if handler.Some? then old(propertyChangedAsync.items) + {handler.value} else old(propertyChangedAsync.items)
    {
      var _ := propertyChangedAsync.TryAdd(handler);
    }

    method UnsubscribePropertyChangedAsync(handler: Option<HandlerId>)
      requires Valid()
      modifies propertyChangedAsync
      ensures propertyChangedAsync.items ==
        if handler.Some? then old(propertyChangedAsync.items) - {handler.value} else old(propertyChangedAsync.items)
    {
      var _ := propertyChangedAsync.Remove(handler);
    }

    method SubscribeMultiplePropertiesChangedAsync(handler: Option<HandlerId>)
      requires Valid()
      modifies multiplePropertiesChangedAsync
      ensures multiplePropertiesChangedAsync.items ==
        if handler.Some? then old(multiplePropertiesChangedAsync.items) + {handler.value} else old(multiplePropertiesChangedAsync.items)
    {
      var _ := multiplePropertiesChangedAsync.TryAdd(handler);
    }

    method UnsubscribeMultiplePropertiesChangedAsync(handler: Option<HandlerId>)
      requires Valid()
      modifies multiplePropertiesChangedAsync
      ensures multiplePropertiesChangedAsync.items ==
        if handler.Some? then old(multiplePropertiesChangedAsync.items) - {handler.value} else old(multiplePropertiesChangedAsync.items)
    {
      var _ := multiplePropertiesChangedAsync.Remove(handler);
    }

    method SubscribeBeforeClearCollectionChangedAsync(handler: Option<HandlerId>)
      requires Valid()
      modifies beforeClearCollectionChangedAsync
      ensures beforeClearCollectionChangedAsync.items ==
        if handler.Some? then old(beforeClearCollectionChangedAsync.items) + {handler.value} else old(beforeClearCollectionChangedAsync.items)
    {
      var _ := beforeClearCollectionChangedAsync.TryAdd(handler);
    }

    method UnsubscribeBeforeClearCollectionChangedAsync(handler: Option<HandlerId>)
      requires Valid()
      modifies beforeClearCollectionChangedAsync
      ensures beforeClearCollectionChangedAsync.items ==
        if handler.Some? then old(beforeClearCollectionChangedAsync.items) - {handler.value} else old(beforeClearCollectionChangedAsync.items)
    {
      var _ := beforeClearCollectionChangedAsync.Remove(handler);
    }
  }

  /**
   * A client run: subscribing the same handler twice registers it once, and one unsubscribe
   * removes it; the other registries are untouched.
   */
  method SubscribeTwice(c: EnhancedObservableCollection<int>, h: HandlerId)
    requires c.Valid() && c.collectionChangedAsync.items == {}
    modifies c.collectionChangedAsync
    ensures c.collectionChangedAsync.items == {}
    ensures c.propertyChangedAsync.items == old(c.propertyChangedAsync.items)
  {
    c.SubscribeCollectionChangedAsync(Some(h));
    c.SubscribeCollectionChangedAsync(Some(h));
    assert c.collectionChangedAsync.items == {h};
    c.UnsubscribeCollectionChangedAsync(Some(h));
  }

  /** A client run: the notifications of an add followed by a clear, in order. */
  method AddThenClear(c: EnhancedObservableCollection<int>)
    requires !c.reentrancyBlocked
    modifies c
    ensures c.items == []
    ensures c.log == old(c.log) + [PropertiesChanged(CountChanged), Added(7, |old(c.items)|),
                                   BeforeClear(old(c.items) + [7]), PropertiesChanged(CountChanged), Reset]
  {
    var _ := c.AddAsync(7, false);
    var _ := c.ClearItemsAsync(false);
  }
}
