/**
 * The fetch request `ItemManager.fetchItems` builds and runs
 * (ItemManager.swift:23-33, 86-111): `setPredicate` makes a list of
 * sub-predicates that an `NSCompoundPredicate` ANDs together, `setSortDesc`
 * makes two ascending sort descriptors (priority, then name), and the
 * context's `fetch` returns the store's items that satisfy the predicate,
 * ordered by the descriptors.
 */
module ItemQuery {
  import opened Priorities
  import opened FoundationText
  import opened TodoeyItems

  // ----- setPredicate -----

  /** One `NSPredicate` that `setPredicate` may append to its list. */
  datatype ItemPredicate =
    | SectionIs(section: SectionId)   // "section == %@"
    | NameContains(text: string)      // "name CONTAINS[c] %@"
    | NotCompleted                    // "isCompleted == %@" with "False"

  /** `setPredicate(with:section:isShowingCompleted:)`: the list of sub-predicates, in the order appended. */
  function SetPredicate(searchText: string, section: SectionId, isShowingCompleted: bool): (r: seq<ItemPredicate>)
    ensures |r| > 0 && r[0] == SectionIs(section)
    ensures NameContains(searchText) in r <==> searchText != ""
    ensures NotCompleted in r <==> !isShowingCompleted
    ensures forall q :: q in r ==> q in {SectionIs(section), NameContains(searchText), NotCompleted}
  {
    [SectionIs(section)]
    + (if searchText != "" then [NameContains(searchText)] else [])
    + (if !isShowingCompleted then [NotCompleted] else [])
  }

  /** Evaluation of one sub-predicate against an item. */
  predicate Holds(p: ItemPredicate, x: Item)
  {
    match p
    case SectionIs(s) => x.section == s
    case NameContains(t) => ContainsIgnoringCase(x.name, t)
    case NotCompleted => !x.isCompleted
  }

  /** `NSCompoundPredicate(andPredicateWithSubpredicates:)`: every sub-predicate holds. */
  predicate AndAll(preds: seq<ItemPredicate>, x: Item)
  {
    forall i :: 0 <= i < |preds| ==> Holds(preds[i], x)
  }

  /**
   * What a fetch for `section` is meant to return, stated directly: the
   * item is in the section, its name contains the search text ignoring case
   * unless the text is empty, and it is not completed unless completed items
   * are shown.
   */
  predicate Wanted(x: Item, searchText: string, section: SectionId, isShowingCompleted: bool)
  {
    && x.section == section
    && (searchText == "" || ContainsIgnoringCase(x.name, searchText))
    && (isShowingCompleted || !x.isCompleted)
  }

  /** The compound predicate `setPredicate` builds accepts exactly the wanted items. */
  lemma SetPredicateMeaning(searchText: string, section: SectionId, isShowingCompleted: bool, x: Item)
    ensures AndAll(SetPredicate(searchText, section, isShowingCompleted), x)
        <==> Wanted(x, searchText, section, isShowingCompleted)
  {
    var preds := SetPredicate(searchText, section, isShowingCompleted);
    assert preds[0] == SectionIs(section);
    if searchText != "" {
      assert preds[1] == NameContains(searchText);
    }
    if !isShowingCompleted {
      assert preds[|preds| - 1] == NotCompleted;
    }
  }

  /** Applying a predicate to the store: the satisfying items, each as often as in the store. */
  function Filter(preds: seq<ItemPredicate>, s: seq<Item>): (r: seq<Item>)
    ensures |r| <= |s|
    ensures forall x :: x in r ==> x in s && AndAll(preds, x)
  {
    if s == [] then []
    else (if AndAll(preds, s[0]) then [s[0]] else []) + Filter(preds, s[1..])
  }

  /** The filtered store holds exactly the satisfying items, each as often as the store does. */
  lemma {:induction false} FilterContents(preds: seq<ItemPredicate>, s: seq<Item>, x: Item)
    ensures multiset(Filter(preds, s))[x] == if AndAll(preds, x) then multiset(s)[x] else 0
  {
    if s != [] {
      FilterContents(preds, s[1..], x);
      assert s == [s[0]] + s[1..];
    }
  }

  // ----- setSortDesc -----

  datatype SortKey = PriorityKey | NameKey

  /** `NSSortDescriptor(key:ascending:)`. */
  datatype SortDescriptor = SortDescriptor(key: SortKey, ascending: bool)

  /** `setSortDesc()`: priority ascending, then name ascending. */
  function SetSortDesc(): (r: seq<SortDescriptor>)
    ensures forall a: Item, b: Item :: a.priority != b.priority ==>
      CompareBy(r, a, b) == (if a.priority < b.priority then Less else Greater)
    ensures forall a: Item, b: Item :: a.priority == b.priority ==>
      CompareBy(r, a, b) == CompareStrings(a.name, b.name)
  {
    var r := [SortDescriptor(PriorityKey, true), SortDescriptor(NameKey, true)];
    assert r[1..][1..] == [];
    r
  }

  function CompareInts(a: int, b: int): Ordering
  {
    if a < b then Less else if b < a then Greater else Same
  }

  /** Comparison of two items on one key, ascending. */
  function CompareOnKey(key: SortKey, a: Item, b: Item): Ordering
  {
    match key
    case PriorityKey => CompareInts(a.priority as int, b.priority as int)
    case NameKey => CompareStrings(a.name, b.name)
  }

  /** Comparison of two items under one descriptor. */
  function CompareOn(d: SortDescriptor, a: Item, b: Item): Ordering
  {
    if d.ascending then CompareOnKey(d.key, a, b) else CompareOnKey(d.key, a, b).Flip()
  }

  /** Comparison under a list of descriptors: the first descriptor that tells the items apart decides. */
  function CompareBy(descs: seq<SortDescriptor>, a: Item, b: Item): Ordering
    decreases |descs|
  {
    if descs == [] then Same
    else
      var o := CompareOn(descs[0], a, b);
      if o != Same then o else CompareBy(descs[1..], a, b)
  }

  /** `a` may come before `b` in a result sorted by `descs`. */
  predicate InOrder(descs: seq<SortDescriptor>, a: Item, b: Item)
  {
    CompareBy(descs, a, b) != Greater
  }

  ghost predicate SortedBy(descs: seq<SortDescriptor>, s: seq<Item>)
  {
    forall i, j :: 0 <= i < j < |s| ==> InOrder(descs, s[i], s[j])
  }

  /** The order the application wants, stated directly: priority ascending, then name ascending. */
  ghost predicate PriorityThenName(a: Item, b: Item)
  {
    a.priority < b.priority || (a.priority == b.priority && LexLeq(a.name, b.name))
  }

  lemma CompareOnFlip(d: SortDescriptor, a: Item, b: Item)
    ensures CompareOn(d, b, a) == CompareOn(d, a, b).Flip()
  {
    CompareStringsFlip(a.name, b.name);
  }

  /** Items that tie on a descriptor compare alike against any third item. */
  lemma CompareOnSame(d: SortDescriptor, a: Item, b: Item, c: Item)
    requires CompareOn(d, a, b) == Same
    ensures CompareOn(d, a, c) == CompareOn(d, b, c)
    ensures CompareOn(d, c, a) == CompareOn(d, c, b)
  {
  }

  lemma CompareOnLessTransitive(d: SortDescriptor, a: Item, b: Item, c: Item)
    requires CompareOn(d, a, b) == Less && CompareOn(d, b, c) == Less
    ensures CompareOn(d, a, c) == Less
  {
    if d.key == NameKey {
      if d.ascending {
        CompareStringsLessTransitive(a.name, b.name, c.name);
      } else {
        CompareStringsFlip(a.name, b.name);
        CompareStringsFlip(b.name, c.name);
        CompareStringsFlip(a.name, c.name);
        CompareStringsLessTransitive(c.name, b.name, a.name);
      }
    }
  }

  /** Swapping the items flips the comparison under any descriptor list. */
  lemma {:induction false} CompareByFlip(descs: seq<SortDescriptor>, a: Item, b: Item)
    ensures CompareBy(descs, b, a) == CompareBy(descs, a, b).Flip()
    decreases |descs|
  {
    if descs != [] {
      CompareOnFlip(descs[0], a, b);
      CompareByFlip(descs[1..], a, b);
    }
  }

  /** `InOrder` is transitive under any descriptor list. */
  lemma {:induction false} CompareByTransitive(descs: seq<SortDescriptor>, a: Item, b: Item, c: Item)
    requires InOrder(descs, a, b) && InOrder(descs, b, c)
    ensures InOrder(descs, a, c)
    decreases |descs|
  {
    if descs != [] {
      var d := descs[0];
      var o1, o2 := CompareOn(d, a, b), CompareOn(d, b, c);
      if o1 == Same {
        CompareOnSame(d, a, b, c);
        if o2 == Same {
          CompareByTransitive(descs[1..], a, b, c);
        }
      } else if o2 == Same {
        CompareOnSame(d, b, c, a);
      } else {
        CompareOnLessTransitive(d, a, b, c);
      }
    }
  }

  /** The descriptors of `setSortDesc` order items by priority, then by name. */
  lemma SetSortDescOrder(a: Item, b: Item)
    ensures InOrder(SetSortDesc(), a, b) <==> PriorityThenName(a, b)
  {
    var descs := SetSortDesc();
    assert descs[1..][1..] == [];
    CompareStringsIsLexLeq(a.name, b.name);
  }

  // ----- executing the fetch request -----

  /** Inserting into a sorted list, after every item that must precede it. */
  function Insert(descs: seq<SortDescriptor>, x: Item, s: seq<Item>): (r: seq<Item>)
    ensures multiset(r) == multiset(s) + multiset{x}
  {
    if s == [] then [x]
    else if InOrder(descs, x, s[0]) then [x] + s
    else
      assert s == [s[0]] + s[1..];
      [s[0]] + Insert(descs, x, s[1..])
  }

  /** Sorting by `descs`; items that tie keep their store order. */
  function Sort(descs: seq<SortDescriptor>, s: seq<Item>): (r: seq<Item>)
    ensures multiset(r) == multiset(s)
  {
    if s == [] then []
    else
      assert s == [s[0]] + s[1..];
      Insert(descs, s[0], Sort(descs, s[1..]))
  }

  lemma {:induction false} InsertSorted(descs: seq<SortDescriptor>, x: Item, s: seq<Item>)
    requires SortedBy(descs, s)
    ensures SortedBy(descs, Insert(descs, x, s))
    decreases |s|
  {
    var r := Insert(descs, x, s);
    if s == [] {
    } else if InOrder(descs, x, s[0]) {
      forall j | 0 <= j < |s| ensures InOrder(descs, x, s[j]) {
        if j > 0 {
          CompareByTransitive(descs, x, s[0], s[j]);
        }
      }
      assert forall i :: 0 < i < |r| ==> r[i] == s[i - 1];
    } else {
      CompareByFlip(descs, x, s[0]);
      var t := Insert(descs, x, s[1..]);
      InsertSorted(descs, x, s[1..]);
      forall i | 0 <= i < |t| ensures InOrder(descs, s[0], t[i]) {
        assert t[i] in multiset(t);
        if t[i] != x {
          assert t[i] in multiset(s[1..]);
          var j :| 0 <= j < |s[1..]| && s[1..][j] == t[i];
          assert s[j + 1] == t[i];
        }
      }
      assert forall i :: 0 < i < |r| ==> r[i] == t[i - 1];
    }
  }

  lemma {:induction false} SortSorted(descs: seq<SortDescriptor>, s: seq<Item>)
    ensures SortedBy(descs, Sort(descs, s))
    decreases |s|
  {
    if s != [] {
      SortSorted(descs, s[1..]);
      InsertSorted(descs, s[0], Sort(descs, s[1..]));
    }
  }

  /** `context.fetch(request)`: the items satisfying `preds`, ordered by `descs`. */
  function ExecuteFetch(store: seq<Item>, preds: seq<ItemPredicate>, descs: seq<SortDescriptor>): (r: seq<Item>)
    ensures SortedBy(descs, r)
    ensures multiset(r) == multiset(Filter(preds, store))
  {
    SortSorted(descs, Filter(preds, store));
    Sort(descs, Filter(preds, store))
  }

  /**
   * The request `fetchItems` builds returns exactly the wanted items of the
   * store, ordered by priority, then by name.
   */
  lemma FetchRequestMeaning(store: seq<Item>, searchText: string, section: SectionId, isShowingCompleted: bool)
    ensures var r := ExecuteFetch(store, SetPredicate(searchText, section, isShowingCompleted), SetSortDesc());
      && (forall x :: x in r <==> x in store && Wanted(x, searchText, section, isShowingCompleted))
      && (forall i, j :: 0 <= i < j < |r| ==> PriorityThenName(r[i], r[j]))
  {
    var preds := SetPredicate(searchText, section, isShowingCompleted);
    var r := ExecuteFetch(store, preds, SetSortDesc());
    forall x ensures x in r <==> x in store && Wanted(x, searchText, section, isShowingCompleted) {
      SetPredicateMeaning(searchText, section, isShowingCompleted, x);
      FilterContents(preds, store, x);
      assert x in r <==> x in multiset(r);
      assert x in store <==> x in multiset(store);
    }
    forall i, j | 0 <= i < j < |r| ensures PriorityThenName(r[i], r[j]) {
      SetSortDescOrder(r[i], r[j]);
    }
  }

  /** The list `fetchItems(with:section:isShowingCompleted:)` hands to the delegate. */
  function Query(store: seq<Item>, searchText: string, section: SectionId, isShowingCompleted: bool): (r: seq<Item>)
    ensures forall x :: x in r <==> x in store && Wanted(x, searchText, section, isShowingCompleted)
    ensures forall i, j :: 0 <= i < j < |r| ==> PriorityThenName(r[i], r[j])
  {
    FetchRequestMeaning(store, searchText, section, isShowingCompleted);
    ExecuteFetch(store, SetPredicate(searchText, section, isShowingCompleted), SetSortDesc())
  }

  // ----- properties of the query -----

  /**
   * The result holds exactly the wanted items of the store, each as many
   * times as the store holds it.
   */
  lemma QueryContents(store: seq<Item>, searchText: string, section: SectionId, isShowingCompleted: bool, x: Item)
    ensures multiset(Query(store, searchText, section, isShowingCompleted))[x]
         == if Wanted(x, searchText, section, isShowingCompleted) then multiset(store)[x] else 0
    ensures x in Query(store, searchText, section, isShowingCompleted)
        <==> x in store && Wanted(x, searchText, section, isShowingCompleted)
  {
    SetPredicateMeaning(searchText, section, isShowingCompleted, x);
    FilterContents(SetPredicate(searchText, section, isShowingCompleted), store, x);
    var r := Query(store, searchText, section, isShowingCompleted);
    assert x in r <==> x in multiset(r);
    assert x in store <==> x in multiset(store);
  }

  /** Items of other sections are never returned, whatever the other arguments. */
  lemma QueryOnlySection(store: seq<Item>, searchText: string, section: SectionId, isShowingCompleted: bool)
    ensures forall x :: x in Query(store, searchText, section, isShowingCompleted) ==> x.section == section
  {
  }

  /** With completed items hidden, no returned item is completed. */
  lemma QueryHidesCompleted(store: seq<Item>, searchText: string, section: SectionId)
    ensures forall x :: x in Query(store, searchText, section, false) ==> !x.isCompleted
  {
  }

  /** The three example items pass the filter of a section with completed items hidden, in store order. */
  lemma ExampleFilter(zeta: Item, alpha: Item, beta: Item, section: SectionId)
    requires zeta.section == alpha.section == beta.section == section
    requires !zeta.isCompleted && !alpha.isCompleted && !beta.isCompleted
    ensures Filter(SetPredicate("", section, false), [zeta, alpha, beta]) == [zeta, alpha, beta]
  {
    var preds := SetPredicate("", section, false);
    assert preds == [SectionIs(section), NotCompleted];
    assert AndAll(preds, zeta) && AndAll(preds, alpha) && AndAll(preds, beta);
    assert [zeta, alpha, beta][1..] == [alpha, beta];
    assert [alpha, beta][1..] == [beta];
    assert [beta][1..] == [];
    assert Filter(preds, [beta]) == [beta];
    assert Filter(preds, [alpha, beta]) == [alpha, beta];
  }

  /**
   * Two high-priority items and one low-priority item of one section come
   * back high before low, and the two high ones by name.
   */
  lemma QueryOrderExample(t: Timestamp, section: SectionId)
    ensures var zeta := Item(0, "Zeta", "", RawValue(High), false, t, section);
      var alpha := Item(1, "Alpha", "", RawValue(High), false, t, section);
      var beta := Item(2, "Beta", "", RawValue(Low), false, t, section);
      Query([zeta, alpha, beta], "", section, false) == [alpha, zeta, beta]
  {
    var zeta := Item(0, "Zeta", "", RawValue(High), false, t, section);
    var alpha := Item(1, "Alpha", "", RawValue(High), false, t, section);
    var beta := Item(2, "Beta", "", RawValue(Low), false, t, section);
    var descs := SetSortDesc();
    ExampleFilter(zeta, alpha, beta, section);
    assert [zeta, alpha, beta][1..] == [alpha, beta];
    assert [alpha, beta][1..] == [beta];
    assert CompareStrings("Alpha", "Zeta") == Less;
    assert Sort(descs, [beta]) == [beta];
    assert InOrder(descs, alpha, beta);
    assert Sort(descs, [alpha, beta]) == [alpha, beta];
    assert !InOrder(descs, zeta, alpha);
    assert InOrder(descs, zeta, beta);
    assert Insert(descs, zeta, [beta]) == [zeta, beta];
    assert Insert(descs, zeta, [alpha, beta]) == [alpha, zeta, beta];
  }
}
