/**
 * The managed object context seen as the sequence of live `TodoeyItem`
 * objects, in insertion order, and the four changes the item manager makes
 * to it (ItemManager.swift:35-81): insert a new object, set
 * `isCompleted`, overwrite name/desc/priority, delete. Each change is stated
 * as a function of the store before it; the lemmas say what a later fetch
 * sees.
 */
module ItemStore {
  import opened SwiftTypes
  import opened FoundationText
  import opened TodoeyItems
  import opened ItemQuery

  /** Every object in the context has its own identity. */
  ghost predicate UniqueIds(s: seq<Item>)
  {
    forall i, j :: 0 <= i < j < |s| ==> s[i].id != s[j].id
  }

  predicate HasItem(s: seq<Item>, id: ItemId)
  {
    exists i :: 0 <= i < |s| && s[i].id == id
  }

  /** Resolving an object reference to its position in the store. */
  function IndexOf(s: seq<Item>, id: ItemId): (k: nat)
    requires HasItem(s, id)
    ensures k < |s| && s[k].id == id
    ensures forall j :: 0 <= j < k ==> s[j].id != id
  {
    if s[0].id == id then 0
    else
      assert HasItem(s[1..], id) by {
        var i :| 0 <= i < |s| && s[i].id == id;
        assert s[1..][i - 1].id == id;
      }
      1 + IndexOf(s[1..], id)
  }

  /** The object with identity `id`. */
  function Lookup(s: seq<Item>, id: ItemId): (x: Item)
    requires HasItem(s, id)
    ensures x in s && x.id == id
  {
    s[IndexOf(s, id)]
  }

  /** A record built by `createItem`: not completed, stamped with `now`, attached to `section`. */
  function NewItem(id: ItemId, name: string, desc: string, priority: int16, now: Timestamp, section: SectionId): (x: Item)
    ensures x.id == id && x.name == name && x.desc == desc && x.priority == priority
    ensures !x.isCompleted && x.createdAt == now && x.section == section
    ensures forall text :: Wanted(x, text, section, false) <==> text == "" || ContainsIgnoringCase(name, text)
  {
    Item(id, name, desc, priority, false, now, section)
  }

  /** Appending an object whose identity exceeds every identity in the store keeps identities unique. */
  lemma AppendFresh(s: seq<Item>, x: Item)
    requires UniqueIds(s) && forall i :: 0 <= i < |s| ==> s[i].id < x.id
    ensures UniqueIds(s + [x])
    ensures forall i :: 0 <= i < |s + [x]| ==> (s + [x])[i].id < x.id + 1
  {
    var t := s + [x];
    assert forall i :: 0 <= i < |s| ==> t[i] == s[i];
    forall i, j | 0 <= i < j < |t| ensures t[i].id != t[j].id {
      if j == |s| {
        assert t[i].id < x.id;
      }
    }
  }

  /** The store after `item.isCompleted = true`. */
  function WithCompleted(s: seq<Item>, id: ItemId): (r: seq<Item>)
    ensures |r| == |s|
    ensures forall i :: 0 <= i < |s| ==> r[i].id == s[i].id && r[i].section == s[i].section
    ensures forall i :: 0 <= i < |s| ==> (r[i].isCompleted <==> s[i].isCompleted || s[i].id == id)
    ensures forall i :: 0 <= i < |s| && s[i].id != id ==> r[i] == s[i]
  {
    seq(|s|, i requires 0 <= i < |s| => if s[i].id == id then s[i].(isCompleted := true) else s[i])
  }

  /** The store after `item.name = name; item.desc = desc; item.priority = priority`. */
  function WithEdited(s: seq<Item>, id: ItemId, name: string, desc: string, priority: int16): (r: seq<Item>)
    ensures |r| == |s|
    ensures forall i :: 0 <= i < |s| ==>
      && r[i].id == s[i].id && r[i].section == s[i].section
      && r[i].isCompleted == s[i].isCompleted && r[i].createdAt == s[i].createdAt
    ensures forall i :: 0 <= i < |s| && s[i].id == id ==> r[i].name == name && r[i].desc == desc && r[i].priority == priority
    ensures forall i :: 0 <= i < |s| && s[i].id != id ==> r[i] == s[i]
  {
    seq(|s|, i requires 0 <= i < |s| =>
      if s[i].id == id then s[i].(name := name, desc := desc, priority := priority) else s[i])
  }

  /** The store after `context.delete(item)`. */
  function Without(s: seq<Item>, id: ItemId): (r: seq<Item>)
    ensures |r| <= |s|
  {
    if s == [] then []
    else (if s[0].id == id then [] else [s[0]]) + Without(s[1..], id)
  }

  // ----- the changes keep identities unique and do what they say -----

  /** Deleting by identity removes exactly the objects with that identity and keeps the others' order. */
  lemma {:induction false} WithoutContents(s: seq<Item>, id: ItemId)
    ensures forall x :: x in Without(s, id) <==> x in s && x.id != id
    ensures UniqueIds(s) ==> UniqueIds(Without(s, id))
    ensures !HasItem(Without(s, id), id)
  {
    if s != [] {
      WithoutContents(s[1..], id);
      var t := Without(s[1..], id);
      if UniqueIds(s) {
        assert UniqueIds(s[1..]);
        if s[0].id != id {
          forall j | 0 <= j < |t| ensures s[0].id != t[j].id {
            assert t[j] in s[1..];
          }
        }
      }
      var w := Without(s, id);
      forall i | 0 <= i < |w| ensures w[i].id != id {
        assert w[i] in w;
      }
    }
  }

  /** With unique identities, deleting by identity is cutting out the one position that holds it. */
  lemma {:induction false} WithoutAt(s: seq<Item>, k: nat)
    requires UniqueIds(s) && k < |s|
    ensures Without(s, s[k].id) == s[..k] + s[k + 1..]
  {
    var rest := s[1..];
    assert forall i :: 0 <= i < |rest| ==> rest[i] == s[i + 1];
    if k == 0 {
      WithoutAbsent(rest, s[0].id);
      assert Without(s, s[0].id) == Without(rest, s[0].id);
    } else {
      assert UniqueIds(rest);
      WithoutAt(rest, k - 1);
      WithoutKeepsHead(s, k);
    }
  }

  /** The step of `WithoutAt` past a head that stays. */
  lemma WithoutKeepsHead(s: seq<Item>, k: nat)
    requires 0 < k < |s| && s[0].id != s[k].id
    requires Without(s[1..], s[k].id) == s[1..][..k - 1] + s[1..][k..]
    ensures Without(s, s[k].id) == s[..k] + s[k + 1..]
  {
    var id := s[k].id;
    assert Without(s, id) == [s[0]] + Without(s[1..], id);
    CutAfterHead(s, k);
  }

  /** Cutting position `k > 0` out of `s` is keeping the head and cutting `k - 1` out of the tail. */
  lemma CutAfterHead(s: seq<Item>, k: nat)
    requires 0 < k < |s|
    ensures s[..k] + s[k + 1..] == [s[0]] + (s[1..][..k - 1] + s[1..][k..])
  {
    var cut, tail := s[..k] + s[k + 1..], s[1..][..k - 1] + s[1..][k..];
    assert |cut| == |tail| + 1;
    forall i | 0 <= i < |cut| ensures cut[i] == ([s[0]] + tail)[i] {
      if i == 0 {
      } else if i < k {
        assert cut[i] == s[i] && tail[i - 1] == s[1..][i - 1];
      } else {
        assert cut[i] == s[i + 1] && tail[i - 1] == s[1..][i];
      }
    }
  }

  /** Deleting an identity the store does not hold changes nothing. */
  lemma {:induction false} WithoutAbsent(s: seq<Item>, id: ItemId)
    requires forall i :: 0 <= i < |s| ==> s[i].id != id
    ensures Without(s, id) == s
  {
    if s != [] {
      WithoutAbsent(s[1..], id);
      assert s == [s[0]] + s[1..];
    }
  }

  /** Completing sets the flag on that one object and leaves every other field and object alone. */
  lemma CompletedItem(s: seq<Item>, id: ItemId)
    requires HasItem(s, id)
    ensures var t := WithCompleted(s, id);
      && HasItem(t, id)
      && |t| == |s|
      && Lookup(t, id) == Lookup(s, id).(isCompleted := true)
      && forall i :: 0 <= i < |s| && s[i].id != id ==> t[i] == s[i]
  {
    var k := IndexOf(s, id);
    var t := WithCompleted(s, id);
    assert t[k].id == id;
    assert IndexOf(t, id) == k;
  }

  /** With unique identities, completing by identity is updating the one position that holds it. */
  lemma CompleteAt(s: seq<Item>, id: ItemId)
    requires UniqueIds(s) && HasItem(s, id)
    ensures var k := IndexOf(s, id); s[k := s[k].(isCompleted := true)] == WithCompleted(s, id)
    ensures UniqueIds(WithCompleted(s, id))
  {
    var k := IndexOf(s, id);
    assert forall i :: 0 <= i < |s| && i != k ==> s[i].id != id;
  }

  /** Completing twice is completing once. */
  lemma CompleteIdempotent(s: seq<Item>, id: ItemId)
    ensures WithCompleted(WithCompleted(s, id), id) == WithCompleted(s, id)
  {
  }

  /** Editing overwrites name, desc and priority of that one object; `isCompleted`, `createdAt` and `section` stay. */
  lemma EditedItem(s: seq<Item>, id: ItemId, name: string, desc: string, priority: int16)
    requires HasItem(s, id)
    ensures var t := WithEdited(s, id, name, desc, priority);
      && HasItem(t, id)
      && |t| == |s|
      && Lookup(t, id).name == name && Lookup(t, id).desc == desc && Lookup(t, id).priority == priority
      && Lookup(t, id).isCompleted == Lookup(s, id).isCompleted
      && Lookup(t, id).createdAt == Lookup(s, id).createdAt
      && Lookup(t, id).section == Lookup(s, id).section
      && forall i :: 0 <= i < |s| && s[i].id != id ==> t[i] == s[i]
  {
    var k := IndexOf(s, id);
    var t := WithEdited(s, id, name, desc, priority);
    assert t[k].id == id;
    assert IndexOf(t, id) == k;
  }

  // ----- what a later fetch sees -----

  lemma {:induction false} FilterAppend(preds: seq<ItemPredicate>, s: seq<Item>, t: seq<Item>)
    ensures Filter(preds, s + t) == Filter(preds, s) + Filter(preds, t)
  {
    if s != [] {
      FilterAppend(preds, s[1..], t);
      var head := if AndAll(preds, s[0]) then [s[0]] else [];
      assert (s + t)[0] == s[0];
      assert (s + t)[1..] == s[1..] + t;
      assert Filter(preds, s + t) == head + Filter(preds, s[1..] + t);
      assert Filter(preds, s) == head + Filter(preds, s[1..]);
    } else {
      assert s + t == t;
    }
  }

  /**
   * Changing only items the predicate rejects both before and after the
   * change does not change what the predicate selects.
   */
  lemma {:induction false} FilterIgnoresRejected(preds: seq<ItemPredicate>, s: seq<Item>, t: seq<Item>)
    requires |s| == |t|
    requires forall i :: 0 <= i < |s| ==> s[i] == t[i] || (!AndAll(preds, s[i]) && !AndAll(preds, t[i]))
    ensures Filter(preds, s) == Filter(preds, t)
  {
    if s != [] {
      FilterIgnoresRejected(preds, s[1..], t[1..]);
    }
  }

  /** Deleting an item the predicate rejects does not change what it selects. */
  lemma {:induction false} FilterWithoutRejected(preds: seq<ItemPredicate>, s: seq<Item>, id: ItemId)
    requires forall x :: x in s && x.id == id ==> !AndAll(preds, x)
    ensures Filter(preds, Without(s, id)) == Filter(preds, s)
  {
    if s != [] {
      FilterWithoutRejected(preds, s[1..], id);
      FilterAppend(preds, if s[0].id == id then [] else [s[0]], Without(s[1..], id));
      assert s == [s[0]] + s[1..];
      FilterAppend(preds, [s[0]], s[1..]);
    }
  }

  /**
   * After a create, the refreshed list for the item's section (completed
   * items hidden) is the earlier list plus the new item.
   */
  lemma CreatedItemListed(s: seq<Item>, x: Item)
    requires !x.isCompleted
    ensures multiset(Query(s + [x], "", x.section, false))
         == multiset(Query(s, "", x.section, false)) + multiset{x}
    ensures x in Query(s + [x], "", x.section, false)
  {
    var preds := SetPredicate("", x.section, false);
    SetPredicateMeaning("", x.section, false, x);
    FilterAppend(preds, s, [x]);
    assert [x][1..] == [];
    assert Filter(preds, [x]) == [x];
    assert x in multiset(Query(s + [x], "", x.section, false));
  }

  /** With unique identities, a created item is the only listed item with its identity. */
  lemma CreatedItemUnique(s: seq<Item>, x: Item, searchText: string, section: SectionId, isShowingCompleted: bool)
    requires UniqueIds(s + [x])
    ensures forall y :: y in Query(s + [x], searchText, section, isShowingCompleted) && y.id == x.id ==> y == x
  {
    var r := Query(s + [x], searchText, section, isShowingCompleted);
    forall y | y in r && y.id == x.id ensures y == x {
      QueryContents(s + [x], searchText, section, isShowingCompleted, y);
      var i :| 0 <= i < |s + [x]| && (s + [x])[i] == y;
      assert (s + [x])[|s|] == x;
      assert i == |s|;
    }
  }

  /** A completed item drops out of every list that hides completed items. */
  lemma CompletedItemHidden(s: seq<Item>, id: ItemId, searchText: string, section: SectionId)
    ensures forall y :: y in Query(WithCompleted(s, id), searchText, section, false) ==> y.id != id
  {
    var t := WithCompleted(s, id);
    forall y | y in Query(t, searchText, section, false) ensures y.id != id {
      QueryContents(t, searchText, section, false, y);
    }
  }

  /** A deleted item is in no list any more. */
  lemma DeletedItemGone(s: seq<Item>, id: ItemId, searchText: string, section: SectionId, isShowingCompleted: bool)
    ensures forall y :: y in Query(Without(s, id), searchText, section, isShowingCompleted) ==> y.id != id
  {
    WithoutContents(s, id);
    forall y | y in Query(Without(s, id), searchText, section, isShowingCompleted) ensures y.id != id {
      QueryContents(Without(s, id), searchText, section, isShowingCompleted, y);
    }
  }

  /** Completing an item of another section leaves a section's list exactly as it was. */
  lemma CompleteKeepsOtherSections(s: seq<Item>, id: ItemId, searchText: string, section: SectionId, isShowingCompleted: bool)
    requires forall x :: x in s && x.id == id ==> x.section != section
    ensures Query(WithCompleted(s, id), searchText, section, isShowingCompleted)
         == Query(s, searchText, section, isShowingCompleted)
  {
    var preds := SetPredicate(searchText, section, isShowingCompleted);
    var t := WithCompleted(s, id);
    forall i | 0 <= i < |s| ensures s[i] == t[i] || (!AndAll(preds, s[i]) && !AndAll(preds, t[i])) {
      SetPredicateMeaning(searchText, section, isShowingCompleted, s[i]);
      SetPredicateMeaning(searchText, section, isShowingCompleted, t[i]);
    }
    FilterIgnoresRejected(preds, s, t);
  }

  /** Editing an item of another section leaves a section's list exactly as it was. */
  lemma EditKeepsOtherSections(s: seq<Item>, id: ItemId, name: string, desc: string, priority: int16,
                               searchText: string, section: SectionId, isShowingCompleted: bool)
    requires forall x :: x in s && x.id == id ==> x.section != section
    ensures Query(WithEdited(s, id, name, desc, priority), searchText, section, isShowingCompleted)
         == Query(s, searchText, section, isShowingCompleted)
  {
    var preds := SetPredicate(searchText, section, isShowingCompleted);
    var t := WithEdited(s, id, name, desc, priority);
    forall i | 0 <= i < |s| ensures s[i] == t[i] || (!AndAll(preds, s[i]) && !AndAll(preds, t[i])) {
      SetPredicateMeaning(searchText, section, isShowingCompleted, s[i]);
      SetPredicateMeaning(searchText, section, isShowingCompleted, t[i]);
    }
    FilterIgnoresRejected(preds, s, t);
  }

  /** Deleting an item of another section leaves a section's list exactly as it was. */
  lemma DeleteKeepsOtherSections(s: seq<Item>, id: ItemId, searchText: string, section: SectionId, isShowingCompleted: bool)
    requires forall x :: x in s && x.id == id ==> x.section != section
    ensures Query(Without(s, id), searchText, section, isShowingCompleted)
         == Query(s, searchText, section, isShowingCompleted)
  {
    var preds := SetPredicate(searchText, section, isShowingCompleted);
    forall x | x in s && x.id == id ensures !AndAll(preds, x) {
      SetPredicateMeaning(searchText, section, isShowingCompleted, x);
    }
    FilterWithoutRejected(preds, s, id);
  }
}
