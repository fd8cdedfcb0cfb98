/**
 * `ItemManager` (ItemManager.swift:11-119): the object the screens call to
 * read and change items. It holds the view context (here: the sequence of
 * live items) and an optional delegate; every write changes the context,
 * saves, and on success re-runs the fetch for the owning section with
 * completed items hidden, so that the delegate receives the refreshed list.
 * A thrown `save()` or `fetch(_:)` is an injected boolean; the delegate is
 * represented by whether one is set and by the last callback it received.
 */
module ItemManagers {
  import opened SwiftTypes
  import opened TodoeyItems
  import opened ItemQuery
  import opened ItemStore

  /** The error `context.save()` or `context.fetch(_:)` throws. */
  datatype StoreError = SaveFailed | FetchFailed

  /** The last `ItemManagerDelegate` callback: none yet, `didUpdate(with:)` or `didFail(with:)`. */
  datatype Event = NoEvent | Updated(models: seq<Item>) | Failed(error: StoreError)

  /** What `fetchItems` reports: the fetched list, or the fetch error. */
  function FetchOutcome(store: seq<Item>, searchText: string, section: SectionId, isShowingCompleted: bool,
                        fetchOk: bool): (e: Event)
    ensures e.Updated? <==> fetchOk
    ensures e.Failed? ==> e.error == FetchFailed
    ensures e.Updated? ==> forall x :: x in e.models <==> x in store && Wanted(x, searchText, section, isShowingCompleted)
  {
    if fetchOk then Updated(Query(store, searchText, section, isShowingCompleted)) else Failed(FetchFailed)
  }

  /**
   * What a write reports once the context has changed: the save error
   * without any fetch, or else what re-fetching `section` with completed
   * items hidden reports.
   */
  function WriteOutcome(store: seq<Item>, section: SectionId, saveOk: bool, fetchOk: bool): (e: Event)
    ensures e.Updated? <==> saveOk && fetchOk
    ensures !saveOk ==> e == Failed(SaveFailed)
    ensures saveOk && !fetchOk ==> e == Failed(FetchFailed)
    ensures e.Updated? ==> forall x :: x in e.models <==> x in store && x.section == section && !x.isCompleted
  {
    if saveOk then FetchOutcome(store, "", section, false, fetchOk) else Failed(SaveFailed)
  }

  class ItemManager {
    /** The view context's live `TodoeyItem` objects, in insertion order. */
    var items: seq<Item>
    /** The identity the next inserted object receives. */
    var nextId: ItemId
    /** `delegate != nil`. */
    var hasDelegate: bool
    /** The last callback the delegate received. */
    var lastEvent: Event

    ghost predicate Valid()
      reads this
    {
      && UniqueIds(items)
      && forall i :: 0 <= i < |items| ==> items[i].id < nextId
    }

    /** A manager over an empty context, with no delegate. */
    constructor ()
      ensures Valid()
      ensures items == [] && !hasDelegate && lastEvent == NoEvent
    {
      items := [];
      nextId := 0;
      hasDelegate := false;
      lastEvent := NoEvent;
    }

    /** `ItemManager.shared.delegate = self`: the new delegate replaces any earlier one. */
    method SetDelegate()
      modifies this`hasDelegate, this`lastEvent
      ensures hasDelegate && lastEvent == NoEvent
    {
      hasDelegate := true;
      lastEvent := NoEvent;
    }

    /** `delegate?.didUpdate(with:)` and `delegate?.didFail(with:)`: nothing happens without a delegate. */
    method Notify(e: Event)
      modifies this`lastEvent
      ensures lastEvent == if hasDelegate then e else old(lastEvent)
    {
      if hasDelegate {
        lastEvent := e;
      }
    }

    /** `fetchItems(with:section:isShowingCompleted:)`; `fetchOk` is false when `context.fetch` throws. */
    method FetchItems(searchText: string, section: SectionId, isShowingCompleted: bool, fetchOk: bool)
      modifies this`lastEvent
      ensures lastEvent == if hasDelegate then FetchOutcome(items, searchText, section, isShowingCompleted, fetchOk)
                           else old(lastEvent)
    {
      var compound := SetPredicate(searchText, section, isShowingCompleted);
      var sortDescriptors := SetSortDesc();
      if fetchOk {
        var models := ExecuteFetch(items, compound, sortDescriptors);
        Notify(Updated(models));
      } else {
        Notify(Failed(FetchFailed));
      }
    }

    /**
     * `createItem(name:desc:priority:section:)`. The new object joins the
     * context before the save, so it stays there when the save throws.
     */
    method CreateItem(name: string, desc: string, priority: int16, section: SectionId, now: Timestamp,
                      saveOk: bool, fetchOk: bool)
      requires Valid()
      modifies this`items, this`nextId, this`lastEvent
      ensures Valid()
      ensures nextId == old(nextId) + 1
      ensures items == old(items) + [NewItem(old(nextId), name, desc, priority, now, section)]
      ensures lastEvent == if hasDelegate then WriteOutcome(items, section, saveOk, fetchOk) else old(lastEvent)
      ensures hasDelegate && saveOk && fetchOk ==>
        && NewItem(old(nextId), name, desc, priority, now, section) in lastEvent.models
        && multiset(lastEvent.models)
           == multiset(Query(old(items), "", section, false)) + multiset{NewItem(old(nextId), name, desc, priority, now, section)}
    {
      var newItem := NewItem(nextId, name, desc, priority, now, section);
      AppendFresh(items, newItem);
      CreatedItemListed(items, newItem);
      nextId := nextId + 1;
      items := items + [newItem];
      if saveOk {
        FetchItems("", section, false, fetchOk);
      } else {
        Notify(Failed(SaveFailed));
      }
    }

    /**
     * `completeItem(item:)`. The flag is set before the save and stays set
     * when the save throws.
     */
    method CompleteItem(id: ItemId, saveOk: bool, fetchOk: bool)
      requires Valid() && HasItem(items, id)
      modifies this`items, this`lastEvent
      ensures Valid()
      ensures items == WithCompleted(old(items), id)
      ensures HasItem(items, id) && Lookup(items, id) == Lookup(old(items), id).(isCompleted := true)
      ensures lastEvent == if hasDelegate then WriteOutcome(items, Lookup(old(items), id).section, saveOk, fetchOk)
                           else old(lastEvent)
      ensures hasDelegate && saveOk && fetchOk ==> forall x :: x in lastEvent.models ==> x.id != id
    {
      var k := IndexOf(items, id);
      CompleteAt(items, id);
      CompletedItem(items, id);
      CompletedItemHidden(items, id, "", items[k].section);
      items := items[k := items[k].(isCompleted := true)];
      if saveOk {
        FetchItems("", items[k].section, false, fetchOk);
      } else {
        Notify(Failed(SaveFailed));
      }
    }

    /**
     * `deleteItem(item:section:)`: the list re-fetched is that of the
     * `section` argument. Deleting an object the context does not hold
     * leaves the context as it is.
     */
    method DeleteItem(id: ItemId, section: SectionId, saveOk: bool, fetchOk: bool)
      requires Valid()
      modifies this`items, this`lastEvent
      ensures Valid()
      ensures items == Without(old(items), id)
      ensures !HasItem(items, id) && forall x :: x in items <==> x in old(items) && x.id != id
      ensures lastEvent == if hasDelegate then WriteOutcome(items, section, saveOk, fetchOk) else old(lastEvent)
      ensures hasDelegate && saveOk && fetchOk ==> forall x :: x in lastEvent.models ==> x.id != id
    {
      WithoutContents(items, id);
      DeletedItemGone(items, id, "", section, false);
      if HasItem(items, id) {
        var k := IndexOf(items, id);
        WithoutAt(items, k);
        items := items[..k] + items[k + 1..];
      } else {
        WithoutAbsent(items, id);
      }
      if saveOk {
        FetchItems("", section, false, fetchOk);
      } else {
        Notify(Failed(SaveFailed));
      }
    }

    /**
     * `editItem(item:name:desc:priority:)`. The fields are overwritten
     * before the save and keep their new values when the save throws.
     */
    method EditItem(id: ItemId, name: string, desc: string, priority: int16, saveOk: bool, fetchOk: bool)
      requires Valid() && HasItem(items, id)
      modifies this`items, this`lastEvent
      ensures Valid()
      ensures items == WithEdited(old(items), id, name, desc, priority)
      ensures HasItem(items, id)
      ensures Lookup(items, id) == Lookup(old(items), id).(name := name, desc := desc, priority := priority)
      ensures lastEvent == if hasDelegate then WriteOutcome(items, Lookup(old(items), id).section, saveOk, fetchOk)
                           else old(lastEvent)
    {
      var k := IndexOf(items, id);
      assert forall i :: 0 <= i < |items| && i != k ==> items[i].id != id;
      items := items[k := items[k].(name := name, desc := desc, priority := priority)];
      EditedItem(old(items), id, name, desc, priority);
      if saveOk {
        FetchItems("", items[k].section, false, fetchOk);
      } else {
        Notify(Failed(SaveFailed));
      }
    }
  }
}
