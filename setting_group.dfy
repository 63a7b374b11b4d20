/**
 * SettingGroup: a named, prioritised group of setting items, kept as an
 * insertion-ordered collection keyed by item key. Items are added or
 * edited by key, shown in order of non-increasing priority and saved
 * together.
 *
 * As for items, the behaviour is specified on snapshots (`ItemStates`, the
 * items' states under their keys, and `GroupState`) and the class
 * `SettingGroup` is proved to act on its item objects as the snapshots say.
 */
module Group {
  import opened Php
  import opened Collection
  import Sorting
  import Item
  import Database

  type Rows = map<string, string>

  /** The items of a group as (key, item state) pairs. */
  type ItemStates = Entries<Item.ItemState>

  /** Every entry is stored under its item's own key. */
  predicate KeysMatch(es: ItemStates)
  {
    forall i | 0 <= i < |es| :: es[i].1.key == es[i].0
  }

  /** The fields of a group, with its items as states. */
  datatype GroupState = GroupState(key: string, name: string, icon: string, priority: int, items: ItemStates)

  /** A call a configurator closure may make on a group (the key setter is not among them). */
  datatype GroupSetter =
    | NameIs(name: string)
    | IconIs(icon: string)
    | PriorityIs(priority: int)
    | ItemCall(itemKey: string, cb: seq<Item.ItemSetter>)

  // ------------------------------------------------------------------
  // Specification on snapshots
  // ------------------------------------------------------------------

  /**
   * `item($k, $cb)`: the item under `k`, or a new item given key `k`, is
   * configured by `cb` and put back under `k`. When the configurator throws,
   * a new item is dropped, while an existing one keeps what the configurator
   * did before it threw.
   */
  function UpsertItem(es: ItemStates, k: string, cb: seq<Item.ItemSetter>): (r: (ItemStates, Item.Outcome))
    ensures |r.0| >= |es|
    ensures UniqueKeys(es) ==> UniqueKeys(r.0)
    ensures KeysMatch(es) ==> KeysMatch(r.0)
    ensures forall i | 0 <= i < |es| && es[i].0 != k :: r.0[i] == es[i]
    ensures Has(es, k) ==> Keys(r.0) == Keys(es)
    ensures !Has(es, k) && r.1.Pass? ==>
      |r.0| == |es| + 1 && r.0[..|es|] == es && r.0[|es|].0 == k
    ensures !Has(es, k) && r.1.Fail? ==> r.0 == es
  {
    if Has(es, k) then
      var c := Item.Configured(Get(es, k), cb);
      (Put(es, k, c.0), c.1)
    else
      var c := Item.Configured(Item.Initial().(key := k), cb);
      if c.1.Pass? then
        assert (es + [(k, c.0)])[..|es|] == es;
        (Put(es, k, c.0), c.1)
      else (es, c.1)
  }

  /** `addItem($item)`: the item is put under its own key. */
  function AddItemState(es: ItemStates, st: Item.ItemState): (r: ItemStates)
    ensures |r| >= |es| && Has(r, st.key)
    ensures UniqueKeys(es) ==> UniqueKeys(r) && Get(r, st.key) == st
    ensures KeysMatch(es) ==> KeysMatch(r)
    ensures forall i | 0 <= i < |es| && es[i].0 != st.key :: r[i] == es[i]
    ensures Has(es, st.key) ==> Keys(r) == Keys(es)
    ensures !Has(es, st.key) ==> r == es + [(st.key, st)]
  {
    Put(es, st.key, st)
  }

  /** One configurator call on a group. */
  function ApplySetter(g: GroupState, s: GroupSetter): (r: (GroupState, Item.Outcome))
    ensures r.0.key == g.key
    ensures UniqueKeys(g.items) ==> UniqueKeys(r.0.items)
    ensures KeysMatch(g.items) ==> KeysMatch(r.0.items)
  {
    match s
    case NameIs(n) => (g.(name := n), Item.Pass)
    case IconIs(i) => (g.(icon := i), Item.Pass)
    case PriorityIs(p) => (g.(priority := p), Item.Pass)
    case ItemCall(k, cb) =>
      var u := UpsertItem(g.items, k, cb);
      (g.(items := u.0), u.1)
  }

  /** A configurator closure run on a group: its calls in order, stopping at the first that throws. */
  function Configured(g: GroupState, cb: seq<GroupSetter>): (r: (GroupState, Item.Outcome))
    ensures r.0.key == g.key
    ensures UniqueKeys(g.items) ==> UniqueKeys(r.0.items)
    ensures KeysMatch(g.items) ==> KeysMatch(r.0.items)
    decreases |cb|
  {
    if cb == [] then (g, Item.Pass)
    else
      var (next, out) := ApplySetter(g, cb[0]);
      if out.Fail? then (next, out) else Configured(next, cb[1..])
  }

  /** The calls from `i` on: the call at `i`, then, unless it threw, the rest. */
  lemma ConfiguredStep(g: GroupState, cb: seq<GroupSetter>, i: int)
    requires 0 <= i < |cb|
    ensures Configured(g, cb[i..]) ==
      var (next, out) := ApplySetter(g, cb[i]);
      if out.Fail? then (next, out) else Configured(next, cb[i + 1..])
  {
    assert cb[i..][1..] == cb[i + 1..];
  }

  /** `getName()`: a non-empty name, otherwise the key. */
  function DisplayName(g: GroupState): (r: string)
    ensures !EmptyString(g.name) ==> r == g.name
    ensures EmptyString(g.name) ==> r == g.key
  {
    if !EmptyString(g.name) then g.name else g.key
  }

  /** Each entry's priority, in collection order: the values `sortByDesc('priority')` sorts by. */
  function PrioritiesOf(es: ItemStates): (r: seq<int>)
    ensures |r| == |es|
    ensures forall i | 0 <= i < |es| :: r[i] == es[i].1.priority
  {
    seq(|es|, i requires 0 <= i < |es| => es[i].1.priority)
  }

  /** The order `getItems()` lists a group's items in: non-increasing priority, ties in collection order. */
  function VisitOrder(es: ItemStates): (r: ItemStates)
    ensures multiset(r) == multiset(es)
    ensures forall i, j | 0 <= i < j < |r| :: r[i].1.priority >= r[j].1.priority
  {
    Sorting.SortByDescPermutes(es, PrioritiesOf(es));
    Sorting.SortByDescOrdered(es, PrioritiesOf(es), (e: (string, Item.ItemState)) => e.1.priority);
    Sorting.SortByDesc(es, PrioritiesOf(es))
  }

  /** One step of a pass over a group's items: the item's new state and the store after it. */
  type Step = (Item.ItemState, Rows) -> (Item.ItemState, Rows)

  /** Runs `step` on every entry in order, threading the store from one item to the next. */
  function Sweep(es: ItemStates, rows: Rows, step: Step): (r: (ItemStates, Rows))
    ensures |r.0| == |es|
    decreases |es|
  {
    if es == [] then ([], rows)
    else
      var (first, rows1) := step(es[0].1, rows);
      var rest := Sweep(es[1..], rows1, step);
      ([(es[0].0, first)] + rest.0, rest.1)
  }

  /** `saveAllChangedValues()`: `save()` on every item, in collection order. */
  function SaveAll(es: ItemStates, rows: Rows): (r: (ItemStates, Rows))
    ensures |r.0| == |es|
  {
    Sweep(es, rows, Item.Saved)
  }

  /**
   * Saving every item keeps the keys and everything but values and flags,
   * leaves clean items alone, never removes a row, and does nothing at all
   * when every item is clean.
   */
  lemma {:induction false} SaveAllEffect(es: ItemStates, rows: Rows)
    ensures forall i | 0 <= i < |es| :: SaveAll(es, rows).0[i].0 == es[i].0
    ensures forall i | 0 <= i < |es| :: Item.SameButValue(es[i].1, SaveAll(es, rows).0[i].1)
    ensures forall i | 0 <= i < |es| && !es[i].1.changed :: SaveAll(es, rows).0[i] == es[i]
    ensures rows.Keys <= SaveAll(es, rows).1.Keys
    ensures (forall i | 0 <= i < |es| :: !es[i].1.changed) ==> SaveAll(es, rows) == (es, rows)
    decreases |es|
  {
    if es != [] {
      var (first, rows1) := Item.Saved(es[0].1, rows);
      SaveAllEffect(es[1..], rows1);
      var rest := SaveAll(es[1..], rows1);
      var r := SaveAll(es, rows);
      assert r == ([(es[0].0, first)] + rest.0, rest.1);
      forall i | 1 <= i < |es|
        ensures r.0[i] == rest.0[i - 1] && es[i] == es[1..][i - 1]
      {
      }
      if forall i | 0 <= i < |es| :: !es[i].1.changed {
        assert !es[0].1.changed;
        assert forall i | 0 <= i < |es[1..]| :: !es[1..][i].1.changed by {
          forall i | 0 <= i < |es[1..]| ensures !es[1..][i].1.changed {
            assert es[1..][i] == es[i + 1];
          }
        }
        assert es == [es[0]] + es[1..];
      }
    }
  }

  // ------------------------------------------------------------------
  // Properties of the specification
  // ------------------------------------------------------------------

  lemma SweepOne(e: (string, Item.ItemState), rows: Rows, step: Step)
    ensures Sweep([e], rows, step) == ([(e.0, step(e.1, rows).0)], step(e.1, rows).1)
  {
    assert [e][1..] == [];
    assert [e][0] == e;
    var (first, rows1) := step(e.1, rows);
    assert Sweep([], rows1, step) == ([], rows1);
    assert [(e.0, first)] + [] == [(e.0, first)];
  }

  /** One more item extends the swept prefix by that item's step. */
  lemma SweepStep(es: ItemStates, i: int, rows: Rows, step: Step)
    requires 0 <= i < |es|
    ensures var p := Sweep(es[..i], rows, step);
      Sweep(es[..i + 1], rows, step) ==
        (p.0 + [(es[i].0, step(es[i].1, p.1).0)], step(es[i].1, p.1).1)
  {
    SweepAppend(es[..i], [es[i]], rows, step);
    assert es[..i + 1] == es[..i] + [es[i]];
    SweepOne(es[i], Sweep(es[..i], rows, step).1, step);
  }

  /** The entry at `i` comes out of its own step, run on the store the entries before it left. */
  lemma SweepAt(es: ItemStates, i: int, rows: Rows, step: Step)
    requires 0 <= i < |es|
    ensures Sweep(es, rows, step).0[i] == (es[i].0, step(es[i].1, Sweep(es[..i], rows, step).1).0)
  {
    SweepAppend(es[..i + 1], es[i + 1..], rows, step);
    assert es[..i + 1] + es[i + 1..] == es;
    SweepStep(es, i, rows, step);
  }

  /** Sweeping two runs of items one after the other is sweeping their concatenation. */
  lemma {:induction false} SweepAppend(a: ItemStates, b: ItemStates, rows: Rows, step: Step)
    ensures Sweep(a + b, rows, step) ==
      (Sweep(a, rows, step).0 + Sweep(b, Sweep(a, rows, step).1, step).0,
       Sweep(b, Sweep(a, rows, step).1, step).1)
    decreases |a|
  {
    if a == [] {
      assert a + b == b;
      assert Sweep(a, rows, step) == ([], rows);
      assert [] + Sweep(b, rows, step).0 == Sweep(b, rows, step).0;
    } else {
      var ab := a + b;
      assert ab[0] == a[0] && ab[1..] == a[1..] + b;
      var (first, rows1) := step(a[0].1, rows);
      SweepAppend(a[1..], b, rows1, step);
      var ta := Sweep(a[1..], rows1, step);
      var tb := Sweep(b, ta.1, step);
      assert Sweep(a, rows, step) == ([(a[0].0, first)] + ta.0, ta.1);
      assert Sweep(ab, rows, step) == ([(a[0].0, first)] + (ta.0 + tb.0), tb.1);
      assert [(a[0].0, first)] + (ta.0 + tb.0) == ([(a[0].0, first)] + ta.0) + tb.0;
    }
  }

  /** A key already present: `item` neither adds nor moves an entry, and the entry holds the configured item. */
  lemma UpsertExisting(es: ItemStates, k: string, cb: seq<Item.ItemSetter>)
    requires UniqueKeys(es) && Has(es, k)
    ensures |UpsertItem(es, k, cb).0| == |es|
    ensures IndexOf(UpsertItem(es, k, cb).0, k) == IndexOf(es, k)
    ensures Get(UpsertItem(es, k, cb).0, k) == Item.Configured(Get(es, k), cb).0
  {
    var r := UpsertItem(es, k, cb).0;
    assert Keys(r) == Keys(es);
    assert forall j | 0 <= j < |es| :: r[j].0 == es[j].0 by {
      forall j | 0 <= j < |es| ensures r[j].0 == es[j].0 {
        assert Keys(r)[j] == Keys(es)[j];
      }
    }
  }

  /** On a key present at `i`, `item` replaces the state at `i` by the configured one. */
  lemma UpsertAt(es: ItemStates, i: int, k: string, cb: seq<Item.ItemSetter>)
    requires UniqueKeys(es) && 0 <= i < |es| && es[i].0 == k
    ensures UpsertItem(es, k, cb) ==
      (es[i := (k, Item.Configured(es[i].1, cb).0)], Item.Configured(es[i].1, cb).1)
  {
    assert Has(es, k);
    PutAt(es, i, k, Item.Configured(es[i].1, cb).0);
  }

  /** A new key: `item` appends one item with that key, which is the configured new item. */
  lemma UpsertNew(es: ItemStates, k: string, cb: seq<Item.ItemSetter>)
    requires !Has(es, k)
    requires Item.Configured(Item.Initial().(key := k), cb).1.Pass?
    ensures UpsertItem(es, k, cb).0 == es + [(k, Item.Configured(Item.Initial().(key := k), cb).0)]
    ensures UpsertItem(es, k, cb).0[|es|].1.key == k
  {
  }

  /** Whatever configurators run, keys stay unique and match their items. */
  lemma {:induction false} UpsertsKeepInvariant(es: ItemStates, calls: seq<(string, seq<Item.ItemSetter>)>)
    requires UniqueKeys(es) && KeysMatch(es)
    ensures UniqueKeys(Upserts(es, calls)) && KeysMatch(Upserts(es, calls))
    decreases |calls|
  {
    if calls != [] {
      UpsertsKeepInvariant(UpsertItem(es, calls[0].0, calls[0].1).0, calls[1..]);
    }
  }

  /** A run of `item` calls, each on the collection the previous one left. */
  function Upserts(es: ItemStates, calls: seq<(string, seq<Item.ItemSetter>)>): ItemStates
    decreases |calls|
  {
    if calls == [] then es else Upserts(UpsertItem(es, calls[0].0, calls[0].1).0, calls[1..])
  }

  // ------------------------------------------------------------------
  // The stateful group
  // ------------------------------------------------------------------

  /** The items' states under their keys. */
  function StatesOf(es: Entries<Item.SettingItem>): (r: ItemStates)
    reads set e | e in es :: e.1
    ensures Keys(r) == Keys(es)
    ensures forall i | 0 <= i < |es| :: r[i] == (es[i].0, es[i].1.State())
  {
    seq(|es|, i reads set e | e in es :: e.1 requires 0 <= i < |es| => (es[i].0, es[i].1.State()))
  }

  /** Sorting entries by their items' priorities and then reading the states is sorting the states. */
  lemma SortedStates(es: Entries<Item.SettingItem>, prio: seq<int>,
                     f: ((string, Item.SettingItem)) -> (string, Item.ItemState))
    requires |prio| == |es| && forall i | 0 <= i < |es| :: prio[i] == es[i].1.priority
    requires forall e | e in es :: f(e) == (e.0, e.1.State())
    ensures StatesOf(Sorting.SortByDesc(es, prio)) == VisitOrder(StatesOf(es))
  {
    var st := StatesOf(es);
    assert Sorting.Image(f, es) == st by {
      assert forall i | 0 <= i < |es| :: es[i] in es;
    }
    assert PrioritiesOf(st) == prio;
    Sorting.SortByDescImage(f, es, prio);
    var r := Sorting.SortByDesc(es, prio);
    Sorting.SortByDescPermutes(es, prio);
    assert StatesOf(r) == Sorting.Image(f, r) by {
      forall i | 0 <= i < |r| ensures f(r[i]) == (r[i].0, r[i].1.State()) {
        assert r[i] in multiset(r);
      }
    }
  }

  /** Keys are unique and each entry sits under its item's key (so no item object occurs twice). */
  ghost predicate WellKeyed(es: Entries<Item.SettingItem>)
    reads set e | e in es :: e.1
  {
    && UniqueKeys(es)
    && (forall e | e in es :: e.1.key == e.0)
  }

  /** Putting an item under its own key keeps the entries well keyed, and acts on the states as on the objects. */
  lemma WellKeyedPut(es: Entries<Item.SettingItem>, it: Item.SettingItem)
    requires WellKeyed(es)
    ensures WellKeyed(Put(es, it.key, it))
    ensures StatesOf(Put(es, it.key, it)) == Put(StatesOf(es), it.key, it.State())
  {
    var i := IndexOf(es, it.key);
    forall j | 0 <= j < |es| && es[j].1 == it
      ensures j == i
    {
      assert es[j].0 == it.key;
    }
    if i < |es| {
      WellKeyedReplace(es, i, it);
    } else {
      WellKeyedAppend(es, it);
    }
  }

  lemma WellKeyedReplace(es: Entries<Item.SettingItem>, i: int, it: Item.SettingItem)
    requires WellKeyed(es) && 0 <= i < |es| && es[i].0 == it.key
    requires forall j | 0 <= j < |es| && es[j].1 == it :: j == i
    ensures WellKeyed(Put(es, it.key, it))
    ensures StatesOf(Put(es, it.key, it)) == Put(StatesOf(es), it.key, it.State())
  {
    PutAt(es, i, it.key, it);
    PutAt(StatesOf(es), i, it.key, it.State());
    assert StatesOf(es[i := (it.key, it)]) == StatesOf(es)[i := (it.key, it.State())];
  }

  lemma WellKeyedAppend(es: Entries<Item.SettingItem>, it: Item.SettingItem)
    requires WellKeyed(es) && !Has(es, it.key)
    ensures WellKeyed(Put(es, it.key, it))
    ensures StatesOf(Put(es, it.key, it)) == Put(StatesOf(es), it.key, it.State())
  {
    assert forall j | 0 <= j < |es| :: es[j].1 != it;
    assert StatesOf(es + [(it.key, it)]) == StatesOf(es) + [(it.key, it.State())];
  }

  class SettingGroup {
    var key: string
    var name: string
    var icon: string
    var priority: int
    var items: Entries<Item.SettingItem>

    /** The item objects of this group. */
    function Objects(): set<Item.SettingItem>
      reads this
    {
      set e | e in items :: e.1
    }

    /** Keys are unique, each entry sits under its item's key, and no item object occurs twice. */
    ghost predicate Valid()
      reads this, Objects()
    {
      WellKeyed(items)
    }

    function States(): ItemStates
      reads this, Objects()
    {
      StatesOf(items)
    }

    function Snapshot(): GroupState
      reads this, Objects()
    {
      GroupState(key, name, icon, priority, States())
    }

    /** The group's own fields: key, name, icon and priority. */
    function Header(): (string, string, string, int)
      reads this
    {
      (key, name, icon, priority)
    }

    /** The entries whose key is `k` (at most one in a valid group). */
    function Keyed(k: string): set<Item.SettingItem>
      reads this
    {
      set i | 0 <= i < |items| && items[i].0 == k :: items[i].1
    }

    constructor()
      ensures Valid() && Snapshot() == GroupState("", "", "", 0, []) && items == []
    {
      key, name, icon, priority, items := "", "", "", 0, [];
    }

    function GetKey(): (k: string)
      reads this
      ensures k == Snapshot().key
    {
      key
    }

    function GetName(): (n: string)
      reads this, Objects()
      ensures n == DisplayName(Snapshot())
    {
      if !EmptyString(name) then name else key
    }

    method SetKey(k: string)
      modifies this
      ensures key == k && name == old(name) && icon == old(icon) && priority == old(priority)
      ensures items == old(items)
    {
      key := k;
    }

    method SetName(n: string)
      modifies this
      ensures name == n && key == old(key) && icon == old(icon) && priority == old(priority)
      ensures items == old(items)
    {
      name := n;
    }

    method SetIcon(i: string)
      modifies this
      ensures icon == i && key == old(key) && name == old(name) && priority == old(priority)
      ensures items == old(items)
    {
      icon := i;
    }

    method SetPriority(p: int)
      modifies this
      ensures priority == p && key == old(key) && name == old(name) && icon == old(icon)
      ensures items == old(items)
    {
      priority := p;
    }

    /** `hasItems()`. */
    predicate HasItems()
      reads this
      ensures HasItems() <==> items != []
    {
      |items| > 0
    }

    /** Each entry's priority, in collection order. */
    function Priorities(): (r: seq<int>)
      reads this, Objects()
      ensures |r| == |items|
      ensures forall i | 0 <= i < |items| :: r[i] == items[i].1.priority
    {
      seq(|items|, i reads this, Objects() requires 0 <= i < |items| => items[i].1.priority)
    }

    /** `getItems()`: the entries by non-increasing priority; the stored order is left as it is. */
    function GetItems(): (r: Entries<Item.SettingItem>)
      reads this, Objects()
      ensures multiset(r) == multiset(items)
      ensures forall i, j | 0 <= i < j < |r| :: r[i].1.priority >= r[j].1.priority
    {
      var m := map o | o in Objects() :: o.priority;
      var key := (e: (string, Item.SettingItem)) => if e.1 in m then m[e.1] else 0;
      var r := Sorting.SortByDesc(items, Priorities());
      Sorting.SortByDescPermutes(items, Priorities());
      assert forall i | 0 <= i < |items| :: Priorities()[i] == key(items[i]) by {
        forall i | 0 <= i < |items| ensures items[i].1 in m { assert items[i] in items; }
      }
      Sorting.SortByDescOrdered(items, Priorities(), key);
      assert forall i | 0 <= i < |r| :: key(r[i]) == r[i].1.priority by {
        forall i | 0 <= i < |r| ensures r[i].1 in m { assert r[i] in multiset(r); }
      }
      r
    }

    /** The items `getItems()` lists, read as states, are the group's states in visit order. */
    lemma ItemsInVisitOrder()
      ensures StatesOf(GetItems()) == VisitOrder(States())
    {
      var m := map o | o in Objects() :: o.State();
      var f := (e: (string, Item.SettingItem)) => (e.0, if e.1 in m then m[e.1] else Item.Initial());
      assert forall e | e in items :: f(e) == (e.0, e.1.State());
      SortedStates(items, Priorities(), f);
    }

    /** `addItem($item)`. */
    method AddItem(it: Item.SettingItem)
      requires Valid()
      modifies this
      ensures Valid()
      ensures items == Put(old(items), it.key, it)
      ensures States() == AddItemState(old(States()), it.State())
      ensures Header() == old(Header())
    {
      WellKeyedPut(items, it);
      items := Put(items, it.key, it);
    }

    /** Runs a configurator on the item at `i`; the other items are untouched. */
    method ConfigureAt(i: int, cb: seq<Item.ItemSetter>) returns (out: Item.Outcome)
      requires Valid() && 0 <= i < |items|
      modifies items[i].1
      ensures Valid()
      ensures (items[i].1.State(), out) == Item.Configured(old(items[i].1.State()), cb)
      ensures States() == old(States())[i := (items[i].0, items[i].1.State())]
    {
      var it := items[i].1;
      out := it.Configure(cb);
      forall j | 0 <= j < |items| && j != i
        ensures items[j].1.State() == old(items[j].1.State())
      {
        assert items[j].1 != it;
      }
      assert States() == old(States())[i := (items[i].0, it.State())];
    }

    /** `item($k, $cb)` when `k` is present at `i`: the existing item is configured and put back in place. */
    method ItemExisting(i: int, k: string, cb: seq<Item.ItemSetter>) returns (out: Item.Outcome)
      requires Valid() && 0 <= i < |items| && items[i].0 == k
      modifies this, items[i].1
      ensures Valid() && items == old(items) && Header() == old(Header())
      ensures (States(), out) == UpsertItem(old(States()), k, cb)
    {
      UpsertAt(States(), i, k, cb);
      var it := items[i].1;
      out := ConfigureAt(i, cb);
      if out.Pass? {
        ghost var es1, s1 := items, States();
        PutAt(es1, i, k, it);
        PutAt(s1, i, k, it.State());
        assert es1[i := (k, it)] == es1 && s1[i := (k, it.State())] == s1;
        AddItem(it);
      }
    }

    /** `item($k, $cb)` when `k` is absent: a new item is configured and, unless the closure failed, appended. */
    method ItemNew(k: string, cb: seq<Item.ItemSetter>, db: Database.SettingsTable) returns (out: Item.Outcome)
      requires Valid() && !Has(items, k)
      modifies this
      ensures Valid() && Header() == old(Header())
      ensures (States(), out) == UpsertItem(old(States()), k, cb)
      ensures out.Fail? ==> items == old(items)
      ensures out.Pass? ==>
        |items| == |old(items)| + 1 && items[..|old(items)|] == old(items) && fresh(items[|old(items)|].1)
      ensures old(Objects()) <= Objects()
      ensures forall o | o in Objects() :: o in old(Objects()) || fresh(o)
    {
      ghost var before := States();
      assert !Has(before, k);
      var it := new Item.SettingItem(db);
      it.SetKey(k);
      out := it.Configure(cb);
      assert States() == before;
      if out.Pass? {
        UpsertNew(before, k, cb);
        AddItem(it);
        assert items == old(items) + [(k, it)];
      }
    }

    /** `item($key, $callback)`: configures the item under `key`, creating it when absent. */
    method ItemCall(k: string, cb: seq<Item.ItemSetter>, db: Database.SettingsTable) returns (out: Item.Outcome)
      requires Valid()
      modifies this, Keyed(k)
      ensures Valid() && Header() == old(Header())
      ensures (States(), out) == UpsertItem(old(States()), k, cb)
      ensures Has(old(items), k) || out.Fail? ==> items == old(items)
      ensures !Has(old(items), k) && out.Pass? ==>
        |items| == |old(items)| + 1 && items[..|old(items)|] == old(items) && fresh(items[|old(items)|].1)
      ensures old(Objects()) <= Objects()
      ensures forall o | o in Objects() :: o in old(Objects()) || fresh(o)
    {
      var i := IndexOf(items, k);
      if i < |items| {
        out := ItemExisting(i, k, cb);
      } else {
        out := ItemNew(k, cb, db);
      }
    }

    /** One call a configurator makes on this group. */
    method Apply(c: GroupSetter, db: Database.SettingsTable) returns (out: Item.Outcome)
      requires Valid()
      modifies this, Objects()
      ensures Valid()
      ensures (Snapshot(), out) == ApplySetter(old(Snapshot()), c)
      ensures old(Objects()) <= Objects()
      ensures forall o | o in Objects() :: o in old(Objects()) || fresh(o)
    {
      match c {
        case NameIs(n) => SetName(n); out := Item.Pass;
        case IconIs(x) => SetIcon(x); out := Item.Pass;
        case PriorityIs(p) => SetPriority(p); out := Item.Pass;
        case ItemCall(k, icb) =>
          out := ItemCall(k, icb, db);
      }
    }

    /** A configurator closure called on this group. */
    method Configure(cb: seq<GroupSetter>, db: Database.SettingsTable) returns (out: Item.Outcome)
      requires Valid()
      modifies this, Objects()
      ensures Valid()
      ensures (Snapshot(), out) == Configured(old(Snapshot()), cb)
      ensures old(Objects()) <= Objects()
      ensures forall o | o in Objects() :: o in old(Objects()) || fresh(o)
    {
      ghost var start := Objects();
      var i := 0;
      while i < |cb|
        invariant 0 <= i <= |cb|
        invariant Valid()
        invariant Configured(Snapshot(), cb[i..]) == Configured(old(Snapshot()), cb)
        invariant start <= Objects()
        invariant forall o | o in Objects() :: o in start || fresh(o)
      {
        ConfiguredStep(Snapshot(), cb, i);
        out := Apply(cb[i], db);
        if out.Fail? {
          return;
        }
        i := i + 1;
      }
      out := Item.Pass;
    }

    /** `save()` on the item at `i`; the other items are untouched. */
    method SaveAt(i: int, db: Database.SettingsTable)
      requires Valid() && 0 <= i < |items|
      modifies items[i].1, db
      ensures Valid()
      ensures (items[i].1.State(), db.rows) == Item.Saved(old(items[i].1.State()), old(db.rows))
      ensures States() == old(States())[i := (items[i].0, items[i].1.State())]
    {
      var it := items[i].1;
      it.Save(db);
      forall j | 0 <= j < |items| && j != i
        ensures items[j].1.State() == old(items[j].1.State())
      {
        assert items[j].1 != it;
      }
      assert States() == old(States())[i := (items[i].0, it.State())];
    }

    /** `saveAllChangedValues()`. */
    method SaveAllChangedValues(db: Database.SettingsTable)
      requires Valid()
      modifies Objects(), db
      ensures Valid()
      ensures (States(), db.rows) == SaveAll(old(States()), old(db.rows))
    {
      ghost var s0 := States();
      ghost var r0 := db.rows;
      var i := 0;
      while i < |items|
        invariant 0 <= i <= |items|
        invariant Valid()
        invariant db.rows == SaveAll(s0[..i], r0).1
        invariant forall j | 0 <= j < i :: States()[j] == SaveAll(s0[..i], r0).0[j]
        invariant forall j | i <= j < |items| :: States()[j] == s0[j]
      {
        SaveAt(i, db);
        SweepStep(s0, i, r0, Item.Saved);
        i := i + 1;
      }
      assert s0[..i] == s0;
      assert States() == SaveAll(s0, r0).0;
    }
  }
}
