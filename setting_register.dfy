/**
 * SettingRegister: the application-wide register of setting groups, kept
 * as an insertion-ordered collection keyed by group key. Groups are added,
 * removed and edited by key; `massUpdate` assigns values from a key/value
 * array to every item under a given key, in every group, and saves them.
 *
 * The behaviour is specified on snapshots (`GroupStates`, the groups'
 * states under their keys) and the class `SettingRegister` is proved to
 * act on its group and item objects as the snapshots say.
 */
module Register {
  import opened Php
  import opened Collection
  import Sorting
  import Item
  import Group
  import Database

  type Rows = map<string, string>

  /** The `key => value` array given to `massUpdate`, in array order (array keys are unique). */
  type Payload = Entries<Value>

  /** The groups of a register as (key, group state) pairs. */
  type GroupStates = Entries<Group.GroupState>

  // ------------------------------------------------------------------
  // Specification on snapshots
  // ------------------------------------------------------------------

  /**
   * The innermost loop of `massUpdate` for one item: for every pair whose key
   * is identical to the item's key, `value($value ?? '', $saveInBetween)`.
   */
  function ApplyPayload(payload: Payload, save: bool, st: Item.ItemState, rows: Rows): (r: (Item.ItemState, Rows))
    ensures Item.SameButValue(st, r.0)
    ensures !save ==> r.1 == rows
    decreases |payload|
  {
    if payload == [] then (st, rows)
    else
      var next := if payload[0].0 == st.key then Item.ValueCall(st, Coalesce(payload[0].1), save, rows) else (st, rows);
      ApplyPayload(payload[1..], save, next.0, next.1)
  }

  /** The payload loop as a step of a pass over a group's items. */
  function Visit(payload: Payload, save: bool): Group.Step
  {
    (st: Item.ItemState, rows: Rows) => ApplyPayload(payload, save, st, rows)
  }

  /** Each entry takes the state stored under its key in `vs`. */
  function Restore(es: Group.ItemStates, vs: Group.ItemStates): (r: Group.ItemStates)
    ensures |r| == |es|
    ensures forall i | 0 <= i < |es| :: r[i].0 == es[i].0
  {
    seq(|es|, i requires 0 <= i < |es| =>
      (es[i].0, if Has(vs, es[i].0) then Get(vs, es[i].0) else es[i].1))
  }

  /**
   * The two inner loops of `massUpdate` for one group: the payload loop on
   * every item, in the order `getItems()` lists them, threading the store.
   */
  function UpdateItems(es: Group.ItemStates, rows: Rows, payload: Payload, save: bool): (r: (Group.ItemStates, Rows))
    ensures |r.0| == |es|
  {
    var done := Group.Sweep(Group.VisitOrder(es), rows, Visit(payload, save));
    (Restore(es, done.0), done.1)
  }

  /** One pass over a group's items: the new item states and the store. */
  type Pass = (Group.ItemStates, Rows) -> (Group.ItemStates, Rows)

  /** Runs `pass` on every group in collection order, threading the store. */
  function GroupSweep(gs: GroupStates, rows: Rows, pass: Pass): (r: (GroupStates, Rows))
    ensures |r.0| == |gs|
    decreases |gs|
  {
    if gs == [] then ([], rows)
    else
      var (items, rows1) := pass(gs[0].1.items, rows);
      var rest := GroupSweep(gs[1..], rows1, pass);
      ([(gs[0].0, gs[0].1.(items := items))] + rest.0, rest.1)
  }

  /** The update loops of `massUpdate` as a pass over one group's items. */
  function UpdatePass(payload: Payload, save: bool): Pass
  {
    (es: Group.ItemStates, rw: Rows) => UpdateItems(es, rw, payload, save)
  }

  /** The two walks over the groups: saving changed values, and assigning the values of a `key => value` array. */
  datatype Task = SaveChanged | Assign(payload: Payload, save: bool)

  /** What a walk does to one group's items and the store. */
  function PassOf(t: Task): Pass
  {
    match t
    case SaveChanged => Group.SaveAll
    case Assign(payload, save) => UpdatePass(payload, save)
  }

  /** The three nested loops of `massUpdate`: groups in collection order, items by priority, pairs in array order. */
  function UpdateGroups(gs: GroupStates, rows: Rows, payload: Payload, save: bool): (r: (GroupStates, Rows))
    ensures |r.0| == |gs|
  {
    GroupSweep(gs, rows, UpdatePass(payload, save))
  }

  /** `saveAllChangedValues()`: every group saves its items, groups in collection order. */
  function SaveGroups(gs: GroupStates, rows: Rows): (r: (GroupStates, Rows))
    ensures |r.0| == |gs|
  {
    GroupSweep(gs, rows, Group.SaveAll)
  }

  /**
   * `massUpdate($keyValueArray, $saveInBetween)`: the update loops, and
   * then, unless every item saved as it went, one pass saving every group.
   */
  function MassUpdated(gs: GroupStates, rows: Rows, payload: Payload, save: bool): (r: (GroupStates, Rows))
    ensures |r.0| == |gs|
  {
    var (updated, rows1) := UpdateGroups(gs, rows, payload, save);
    if save then (updated, rows1) else SaveGroups(updated, rows1)
  }

  /** The group `getGroup` makes for a key the register does not hold. */
  function NewGroup(k: string): Group.GroupState
  {
    Group.GroupState(k, "", "", 0, [])
  }

  /**
   * `group($key, $callback)`: the group under `key`, or a new group given
   * that key, is configured by `callback` and put back under its key. When
   * the configurator throws, a new group is dropped, while an existing one
   * keeps what the configurator did before it threw.
   */
  function UpsertGroup(gs: GroupStates, k: string, cb: seq<Group.GroupSetter>): (r: (GroupStates, Item.Outcome))
    ensures |r.0| >= |gs|
    ensures UniqueKeys(gs) ==> UniqueKeys(r.0)
    ensures forall i | 0 <= i < |gs| && gs[i].0 != k :: r.0[i] == gs[i]
    ensures Has(gs, k) ==> Keys(r.0) == Keys(gs)
    ensures !Has(gs, k) && r.1.Pass? ==>
      |r.0| == |gs| + 1 && r.0[..|gs|] == gs && r.0[|gs|].0 == k
    ensures !Has(gs, k) && r.1.Fail? ==> r.0 == gs
  {
    if Has(gs, k) then
      var c := Group.Configured(Get(gs, k), cb);
      (Put(gs, k, c.0), c.1)
    else
      var c := Group.Configured(NewGroup(k), cb);
      if c.1.Pass? then
        assert (gs + [(k, c.0)])[..|gs|] == gs;
        (Put(gs, k, c.0), c.1)
      else (gs, c.1)
  }

  /** A run of `group` calls, each on the register the previous one left. */
  function GroupCalls(gs: GroupStates, calls: seq<(string, seq<Group.GroupSetter>)>): GroupStates
    decreases |calls|
  {
    if calls == [] then gs else GroupCalls(UpsertGroup(gs, calls[0].0, calls[0].1).0, calls[1..])
  }

  /** Every item of every group, groups in collection order. */
  function AllItems(gs: GroupStates): (r: Group.ItemStates)
    decreases |gs|
  {
    if gs == [] then [] else gs[0].1.items + AllItems(gs[1..])
  }

  // ------------------------------------------------------------------
  // Properties of the specification
  // ------------------------------------------------------------------

  /** A pair whose key is not the item's key does nothing: the payload loop then leaves the item and the store alone. */
  lemma {:induction false} PayloadUnmatched(payload: Payload, save: bool, st: Item.ItemState, rows: Rows)
    requires forall i | 0 <= i < |payload| :: payload[i].0 != st.key
    ensures ApplyPayload(payload, save, st, rows) == (st, rows)
    decreases |payload|
  {
    if payload != [] {
      assert payload[0].0 != st.key;
      assert forall i | 0 <= i < |payload[1..]| :: payload[1..][i] == payload[i + 1];
      PayloadUnmatched(payload[1..], save, st, rows);
    }
  }

  /** An item named in the array gets exactly one `value` call, with the array's value and null read as ''. */
  lemma {:induction false} PayloadMatched(payload: Payload, save: bool, st: Item.ItemState, rows: Rows)
    requires UniqueKeys(payload) && Has(payload, st.key)
    ensures ApplyPayload(payload, save, st, rows) ==
      Item.ValueCall(st, Coalesce(Get(payload, st.key)), save, rows)
    decreases |payload|
  {
    var rest := payload[1..];
    assert forall i | 0 <= i < |rest| :: rest[i] == payload[i + 1];
    if payload[0].0 == st.key {
      assert Get(payload, st.key) == payload[0].1;
      var next := Item.ValueCall(st, Coalesce(payload[0].1), save, rows);
      PayloadUnmatched(rest, save, next.0, next.1);
    } else {
      var j :| 0 <= j < |payload| && payload[j].0 == st.key;
      assert rest[j - 1].0 == st.key;
      assert UniqueKeys(rest);
      assert Get(rest, st.key) == Get(payload, st.key) by {
        assert (st.key, Get(rest, st.key)) in payload;
        var p :| 0 <= p < |payload| && payload[p] == (st.key, Get(rest, st.key));
      }
      PayloadMatched(rest, save, st, rows);
    }
  }

  /** A null in the array arrives at the item as the empty string. */
  lemma NullBecomesEmpty(payload: Payload, st: Item.ItemState, rows: Rows)
    requires UniqueKeys(payload) && Has(payload, st.key) && Get(payload, st.key) == Null
    ensures ApplyPayload(payload, false, st, rows).0.value == Str("")
  {
    PayloadMatched(payload, false, st, rows);
  }

  /** Without saving in between, every item's new state depends on that item alone and no row is written. */
  lemma {:induction false} SweepNoSave(vs: Group.ItemStates, rows: Rows, payload: Payload)
    ensures Group.Sweep(vs, rows, Visit(payload, false)).1 == rows
    ensures forall i | 0 <= i < |vs| ::
      Group.Sweep(vs, rows, Visit(payload, false)).0[i] == (vs[i].0, ApplyPayload(payload, false, vs[i].1, rows).0)
    decreases |vs|
  {
    if vs != [] {
      SweepNoSave(vs[1..], rows, payload);
      var r := Group.Sweep(vs, rows, Visit(payload, false));
      var rest := Group.Sweep(vs[1..], rows, Visit(payload, false));
      assert r == ([(vs[0].0, ApplyPayload(payload, false, vs[0].1, rows).0)] + rest.0, rest.1);
      forall i | 1 <= i < |vs|
        ensures r.0[i] == rest.0[i - 1] && vs[i] == vs[1..][i - 1]
      {
      }
    }
  }

  /** Where `vs` rearranges `es`, whose keys are unique, each entry finds its own state back. */
  lemma RestoreRearranged(es: Group.ItemStates, vs: Group.ItemStates, ws: Group.ItemStates, i: int)
    requires UniqueKeys(es) && multiset(vs) == multiset(es)
    requires |ws| == |vs| && forall j | 0 <= j < |vs| :: ws[j].0 == vs[j].0
    requires 0 <= i < |es|
    ensures exists j | 0 <= j < |vs| :: vs[j] == es[i] && Restore(es, ws)[i] == ws[j]
  {
    PermutationUniqueKeys(vs, es);
    assert es[i] in multiset(vs);
    var j :| 0 <= j < |vs| && vs[j] == es[i];
    assert UniqueKeys(ws) by {
      forall a, b | 0 <= a < b < |ws| ensures ws[a].0 != ws[b].0 {
        assert ws[a].0 == vs[a].0 && ws[b].0 == vs[b].0;
      }
    }
    assert Has(ws, es[i].0) && ws[j].0 == es[i].0;
  }

  /** Without saving in between, a group's update pass writes nothing and assigns each item on its own. */
  lemma UpdateItemsNoSave(es: Group.ItemStates, rows: Rows, payload: Payload)
    requires UniqueKeys(es)
    ensures UpdateItems(es, rows, payload, false).1 == rows
    ensures forall i | 0 <= i < |es| ::
      UpdateItems(es, rows, payload, false).0[i] == (es[i].0, ApplyPayload(payload, false, es[i].1, rows).0)
  {
    var vs := Group.VisitOrder(es);
    var done := Group.Sweep(vs, rows, Visit(payload, false));
    SweepNoSave(vs, rows, payload);
    forall i | 0 <= i < |es|
      ensures Restore(es, done.0)[i] == (es[i].0, ApplyPayload(payload, false, es[i].1, rows).0)
    {
      RestoreRearranged(es, vs, done.0, i);
    }
  }

  /** An item whose key the array does not name keeps its state through the update loops. */
  lemma UpdateItemsUnmatched(es: Group.ItemStates, rows: Rows, payload: Payload, save: bool, i: int)
    requires UniqueKeys(es) && 0 <= i < |es|
    requires forall k | 0 <= k < |payload| :: payload[k].0 != es[i].1.key
    ensures UpdateItems(es, rows, payload, save).0[i] == es[i]
  {
    var vs := Group.VisitOrder(es);
    var done := Group.Sweep(vs, rows, Visit(payload, save));
    forall j | 0 <= j < |vs|
      ensures done.0[j].0 == vs[j].0
    {
      Group.SweepAt(vs, j, rows, Visit(payload, save));
    }
    RestoreRearranged(es, vs, done.0, i);
    var j :| 0 <= j < |vs| && vs[j] == es[i] && Restore(es, done.0)[i] == done.0[j];
    Group.SweepAt(vs, j, rows, Visit(payload, save));
    PayloadUnmatched(payload, save, vs[j].1, Group.Sweep(vs[..j], rows, Visit(payload, save)).1);
  }

  lemma GroupSweepOne(e: (string, Group.GroupState), rows: Rows, pass: Pass)
    ensures GroupSweep([e], rows, pass) ==
      ([(e.0, e.1.(items := pass(e.1.items, rows).0))], pass(e.1.items, rows).1)
  {
    assert [e][1..] == [];
    assert [e][0] == e;
    var (items, rows1) := pass(e.1.items, rows);
    assert GroupSweep([], rows1, pass) == ([], rows1);
    assert [(e.0, e.1.(items := items))] + [] == [(e.0, e.1.(items := items))];
  }

  /** Sweeping two runs of groups one after the other is sweeping their concatenation. */
  lemma {:induction false} GroupSweepAppend(a: GroupStates, b: GroupStates, rows: Rows, pass: Pass)
    ensures GroupSweep(a + b, rows, pass) ==
      (GroupSweep(a, rows, pass).0 + GroupSweep(b, GroupSweep(a, rows, pass).1, pass).0,
       GroupSweep(b, GroupSweep(a, rows, pass).1, pass).1)
    decreases |a|
  {
    if a == [] {
      assert a + b == b;
      assert GroupSweep(a, rows, pass) == ([], rows);
      assert [] + GroupSweep(b, rows, pass).0 == GroupSweep(b, rows, pass).0;
    } else {
      var ab := a + b;
      assert ab[0] == a[0] && ab[1..] == a[1..] + b;
      var (items, rows1) := pass(a[0].1.items, rows);
      GroupSweepAppend(a[1..], b, rows1, pass);
      var head := [(a[0].0, a[0].1.(items := items))];
      var ta := GroupSweep(a[1..], rows1, pass);
      var tb := GroupSweep(b, ta.1, pass);
      assert GroupSweep(a, rows, pass) == (head + ta.0, ta.1);
      assert GroupSweep(ab, rows, pass) == (head + (ta.0 + tb.0), tb.1);
      assert head + (ta.0 + tb.0) == (head + ta.0) + tb.0;
    }
  }

  /** One more group extends the swept prefix by that group's pass. */
  lemma GroupSweepStep(gs: GroupStates, i: int, rows: Rows, pass: Pass)
    requires 0 <= i < |gs|
    ensures var p := GroupSweep(gs[..i], rows, pass);
      var q := pass(gs[i].1.items, p.1);
      GroupSweep(gs[..i + 1], rows, pass) == (p.0 + [(gs[i].0, gs[i].1.(items := q.0))], q.1)
  {
    GroupSweepAppend(gs[..i], [gs[i]], rows, pass);
    assert gs[..i + 1] == gs[..i] + [gs[i]];
    GroupSweepOne(gs[i], GroupSweep(gs[..i], rows, pass).1, pass);
  }

  /** The group at `i` comes out of its own pass, run on the store the groups before it left. */
  lemma GroupSweepAt(gs: GroupStates, i: int, rows: Rows, pass: Pass)
    requires 0 <= i < |gs|
    ensures GroupSweep(gs, rows, pass).0[i] ==
      (gs[i].0, gs[i].1.(items := pass(gs[i].1.items, GroupSweep(gs[..i], rows, pass).1).0))
  {
    GroupSweepAppend(gs[..i + 1], gs[i + 1..], rows, pass);
    assert gs[..i + 1] + gs[i + 1..] == gs;
    GroupSweepStep(gs, i, rows, pass);
  }

  /** Saving group by group is one save pass over all items, in collection order of groups and then items. */
  lemma {:induction false} SaveGroupsFlat(gs: GroupStates, rows: Rows)
    ensures AllItems(SaveGroups(gs, rows).0) == Group.SaveAll(AllItems(gs), rows).0
    ensures SaveGroups(gs, rows).1 == Group.SaveAll(AllItems(gs), rows).1
    decreases |gs|
  {
    if gs != [] {
      var (items, rows1) := Group.SaveAll(gs[0].1.items, rows);
      SaveGroupsFlat(gs[1..], rows1);
      Group.SweepAppend(gs[0].1.items, AllItems(gs[1..]), rows, Item.Saved);
      var r := SaveGroups(gs, rows);
      var rest := SaveGroups(gs[1..], rows1);
      assert r == ([(gs[0].0, gs[0].1.(items := items))] + rest.0, rest.1);
      assert ([(gs[0].0, gs[0].1.(items := items))] + rest.0)[1..] == rest.0;
    }
  }

  /** A pass that writes no row for any of the groups leaves the store alone and handles each group on its own. */
  lemma {:induction false} GroupSweepKeepsRows(gs: GroupStates, rows: Rows, pass: Pass)
    requires forall g | 0 <= g < |gs| :: pass(gs[g].1.items, rows).1 == rows
    ensures GroupSweep(gs, rows, pass).1 == rows
    ensures forall g | 0 <= g < |gs| ::
      GroupSweep(gs, rows, pass).0[g] == (gs[g].0, gs[g].1.(items := pass(gs[g].1.items, rows).0))
    decreases |gs|
  {
    if gs != [] {
      assert forall g | 0 <= g < |gs[1..]| :: gs[1..][g] == gs[g + 1];
      GroupSweepKeepsRows(gs[1..], rows, pass);
      var r := GroupSweep(gs, rows, pass);
      var rest := GroupSweep(gs[1..], rows, pass);
      assert r.0 == [(gs[0].0, gs[0].1.(items := pass(gs[0].1.items, rows).0))] + rest.0;
      forall g | 1 <= g < |gs|
        ensures r.0[g] == rest.0[g - 1]
      {
      }
    }
  }

  /** Without saving in between, the update loops write no row and every group is updated on its own. */
  lemma UpdateGroupsNoSave(gs: GroupStates, rows: Rows, payload: Payload)
    requires forall g | 0 <= g < |gs| :: UniqueKeys(gs[g].1.items)
    ensures UpdateGroups(gs, rows, payload, false).1 == rows
    ensures forall g | 0 <= g < |gs| ::
      UpdateGroups(gs, rows, payload, false).0[g].1.items == UpdateItems(gs[g].1.items, rows, payload, false).0
  {
    var pass := UpdatePass(payload, false);
    forall g | 0 <= g < |gs|
      ensures pass(gs[g].1.items, rows).1 == rows
    {
      UpdateItemsNoSave(gs[g].1.items, rows, payload);
    }
    GroupSweepKeepsRows(gs, rows, pass);
  }

  /**
   * With the default `saveInBetween = false`, `massUpdate` assigns every
   * named item its value and then saves all groups once.
   */
  lemma MassUpdateDeferred(gs: GroupStates, rows: Rows, payload: Payload)
    requires forall g | 0 <= g < |gs| :: UniqueKeys(gs[g].1.items)
    ensures MassUpdated(gs, rows, payload, false) ==
      SaveGroups(UpdateGroups(gs, rows, payload, false).0, rows)
    ensures forall g | 0 <= g < |gs| ::
      UpdateGroups(gs, rows, payload, false).0[g].1.items == UpdateItems(gs[g].1.items, rows, payload, false).0
  {
    UpdateGroupsNoSave(gs, rows, payload);
  }

  /** An item the array does not name keeps its state through the update loops of `massUpdate`. */
  lemma UnnamedUntouched(gs: GroupStates, rows: Rows, payload: Payload, save: bool, g: int, i: int)
    requires 0 <= g < |gs| && UniqueKeys(gs[g].1.items) && 0 <= i < |gs[g].1.items|
    requires forall k | 0 <= k < |payload| :: payload[k].0 != gs[g].1.items[i].1.key
    ensures |UpdateGroups(gs, rows, payload, save).0[g].1.items| == |gs[g].1.items|
    ensures UpdateGroups(gs, rows, payload, save).0[g].1.items[i] == gs[g].1.items[i]
  {
    var pass := UpdatePass(payload, save);
    GroupSweepAt(gs, g, rows, pass);
    UpdateItemsUnmatched(gs[g].1.items, GroupSweep(gs[..g], rows, pass).1, payload, save, i);
  }

  /** Keys are unique and every group, and every item of every group, sits under its own key. */
  predicate Consistent(gs: GroupStates)
  {
    && UniqueKeys(gs)
    && forall i | 0 <= i < |gs| ::
      gs[i].1.key == gs[i].0 && UniqueKeys(gs[i].1.items) && Group.KeysMatch(gs[i].1.items)
  }

  /** `group` keeps the register consistent. */
  lemma UpsertGroupConsistent(gs: GroupStates, k: string, cb: seq<Group.GroupSetter>)
    requires Consistent(gs)
    ensures Consistent(UpsertGroup(gs, k, cb).0)
  {
    var r := UpsertGroup(gs, k, cb).0;
    if Has(gs, k) {
      var i := IndexOf(gs, k);
      PutAt(gs, i, k, Group.Configured(gs[i].1, cb).0);
    } else if UpsertGroup(gs, k, cb).1.Pass? {
      assert r == gs + [(k, Group.Configured(NewGroup(k), cb).0)];
    }
  }

  /** Whatever `group` calls are made, each group key appears at most once and everything stays under its own key. */
  lemma {:induction false} GroupCallsConsistent(gs: GroupStates, calls: seq<(string, seq<Group.GroupSetter>)>)
    requires Consistent(gs)
    ensures Consistent(GroupCalls(gs, calls))
    decreases |calls|
  {
    if calls != [] {
      UpsertGroupConsistent(gs, calls[0].0, calls[0].1);
      GroupCallsConsistent(UpsertGroup(gs, calls[0].0, calls[0].1).0, calls[1..]);
    }
  }

  /** On a key present at `i`, `group` replaces the state at `i` by the configured one. */
  lemma UpsertGroupAt(gs: GroupStates, i: int, k: string, cb: seq<Group.GroupSetter>)
    requires UniqueKeys(gs) && 0 <= i < |gs| && gs[i].0 == k
    ensures UpsertGroup(gs, k, cb) ==
      (gs[i := (k, Group.Configured(gs[i].1, cb).0)], Group.Configured(gs[i].1, cb).1)
  {
    assert Has(gs, k);
    PutAt(gs, i, k, Group.Configured(gs[i].1, cb).0);
  }

  /** On a new key, `group` appends the configured new group, unless the configurator threw. */
  lemma UpsertGroupNew(gs: GroupStates, k: string, cb: seq<Group.GroupSetter>)
    requires !Has(gs, k)
    ensures UpsertGroup(gs, k, cb).1 == Group.Configured(NewGroup(k), cb).1
    ensures Group.Configured(NewGroup(k), cb).1.Pass? ==>
      UpsertGroup(gs, k, cb).0 == gs + [(k, Group.Configured(NewGroup(k), cb).0)]
    ensures Group.Configured(NewGroup(k), cb).1.Fail? ==> UpsertGroup(gs, k, cb).0 == gs
  {
  }

  // ------------------------------------------------------------------
  // Events
  // ------------------------------------------------------------------

  /** The events the register dispatches. */
  datatype Event =
    | SettingsRegistering(register: SettingRegister)
    | SettingsUpdated(values: Payload)

  /** The event dispatcher behind `event(...)`: only what was dispatched is modelled, not what listeners do. */
  class Dispatcher {
    ghost var log: seq<Event>

    constructor()
      ensures log == []
    {
      log := [];
    }

    method Dispatch(e: Event)
      modifies this
      ensures log == old(log) + [e]
    {
      log := log + [e];
    }
  }

  // ------------------------------------------------------------------
  // Group objects
  // ------------------------------------------------------------------

  /**
   * A walk over the groups `s0` has passed the first `i`: `snap` holds
   * their swept states and the rest as they were, `rows` the store the
   * first `i` left.
   */
  predicate Swept(s0: GroupStates, r0: Rows, pass: Pass, i: int, snap: GroupStates, rows: Rows)
  {
    && 0 <= i <= |s0| == |snap|
    && rows == GroupSweep(s0[..i], r0, pass).1
    && (forall j | 0 <= j < i :: snap[j] == GroupSweep(s0[..i], r0, pass).0[j])
    && (forall j | i <= j < |s0| :: snap[j] == s0[j])
  }

  /** Passing one more group: its pass runs on the store the groups before it left. */
  lemma SweptStep(s0: GroupStates, r0: Rows, pass: Pass, i: int, snap: GroupStates, rows: Rows)
    requires Swept(s0, r0, pass, i, snap, rows) && i < |s0|
    ensures Swept(s0, r0, pass, i + 1,
      snap[i := (snap[i].0, snap[i].1.(items := pass(snap[i].1.items, rows).0))],
      pass(snap[i].1.items, rows).1)
  {
    GroupSweepStep(s0, i, r0, pass);
  }

  /** A walk that has passed every group has swept them all. */
  lemma SweptAll(s0: GroupStates, r0: Rows, pass: Pass, snap: GroupStates, rows: Rows)
    requires Swept(s0, r0, pass, |s0|, snap, rows)
    ensures snap == GroupSweep(s0, r0, pass).0 && rows == GroupSweep(s0, r0, pass).1
  {
    assert s0[..|s0|] == s0;
  }

  /** The second loop of `getSettingItem`: the first item whose own key is `k`. */
  method FirstWithKey(items: Entries<Item.SettingItem>, k: string) returns (r: Option<Item.SettingItem>)
    requires UniqueKeys(items)
    requires forall e | e in items :: e.0 == e.1.key
    ensures r == if Has(items, k) then Some(Get(items, k)) else None
    ensures r.Some? ==> r.value.key == k
  {
    var p := 0;
    while p < |items| && items[p].1.key != k
      invariant 0 <= p <= |items|
      invariant forall q | 0 <= q < p :: items[q].0 != k
    {
      assert items[p] in items;
      p := p + 1;
    }
    if p < |items| {
      assert items[p] in items;
      r := Some(items[p].1);
    } else {
      HasAt(items, k);
      r := None;
    }
  }

  /** The first loop of `getSettingItem`: the groups' item lists merged one after the other. */
  method MergeItems(gs: Entries<Group.SettingGroup>, ghost ls: seq<Entries<Item.SettingItem>>)
    returns (items: Entries<Item.SettingItem>)
    requires ls == ListsOf(gs)
    requires forall e | e in MergeAll(ls) :: e.0 == e.1.key
    ensures items == MergeAll(ls)
    ensures forall e | e in items :: e.0 == e.1.key
  {
    items := [];
    var i := 0;
    while i < |gs|
      invariant 0 <= i <= |gs|
      invariant items == MergeAll(ls[..i])
    {
      assert ls[..i + 1][..i] == ls[..i];
      items := Merge(items, gs[i].1.GetItems());
      i := i + 1;
    }
    assert ls[..|gs|] == ls;
  }

  /** The group objects of a collection of groups. */
  function GroupsIn(gs: Entries<Group.SettingGroup>): set<Group.SettingGroup>
  {
    set e | e in gs :: e.1
  }

  /** The item objects of a collection of groups. */
  function ItemsIn(gs: Entries<Group.SettingGroup>): set<Item.SettingItem>
    reads GroupsIn(gs)
  {
    set e, o | e in gs && o in e.1.Objects() :: o
  }

  /** `repr` holds every group object of `gs` and every item object of those groups. */
  ghost predicate Covers(gs: Entries<Group.SettingGroup>, repr: set<object>)
    reads repr
  {
    GroupsIn(gs) <= repr && ItemsIn(gs) <= repr
  }

  /** `repr` holds group and item objects only: neither a register nor the store is among them. */
  ghost predicate OnlyGroupsAndItems(repr: set<object>)
  {
    forall o | o in repr :: o is Group.SettingGroup || o is Item.SettingItem
  }

  lemma OnlyGroupsAndItemsAdd(repr: set<object>, gs: set<Group.SettingGroup>, its: set<Item.SettingItem>)
    requires OnlyGroupsAndItems(repr)
    ensures OnlyGroupsAndItems(repr + gs + its)
  {
  }

  /** The groups' snapshots under their keys. */
  function StatesOf(gs: Entries<Group.SettingGroup>, repr: set<object>): (r: GroupStates)
    requires Covers(gs, repr)
    reads repr
    ensures |r| == |gs|
    ensures forall i | 0 <= i < |gs| :: r[i] == (gs[i].0, gs[i].1.Snapshot())
  {
    assert forall i | 0 <= i < |gs| :: gs[i].1 in repr && gs[i].1.Objects() <= repr by {
      forall i | 0 <= i < |gs| ensures gs[i].1 in repr && gs[i].1.Objects() <= repr {
        assert gs[i] in gs;
      }
    }
    seq(|gs|, i reads repr requires 0 <= i < |gs| && gs[i].1 in repr && gs[i].1.Objects() <= repr =>
      (gs[i].0, gs[i].1.Snapshot()))
  }

  /**
   * Keys are unique, each group is valid and sits under its own key (so no
   * group object occurs twice), and groups under different keys share no
   * item object.
   */
  ghost predicate WellFormed(gs: Entries<Group.SettingGroup>, repr: set<object>)
    reads repr
  {
    && Covers(gs, repr)
    && UniqueKeys(gs)
    && (forall e | e in gs :: e.1.key == e.0 && e.1.Valid())
    && (forall e, d | e in gs && d in gs && e.0 != d.0 :: e.1.Objects() !! d.1.Objects())
  }

  /** An item of one of the groups is an item object of the collection. */
  lemma InItemsIn(gs: Entries<Group.SettingGroup>, g: (string, Group.SettingGroup), o: Item.SettingItem)
    requires g in gs && o in g.1.Objects()
    ensures o in ItemsIn(gs)
  {
  }

  /** Rearranging a collection of groups keeps its group and item objects. */
  lemma PermutedObjects(a: Entries<Group.SettingGroup>, b: Entries<Group.SettingGroup>)
    requires multiset(a) == multiset(b)
    ensures GroupsIn(a) == GroupsIn(b) && ItemsIn(a) == ItemsIn(b)
  {
    assert forall e | e in a :: e in multiset(b);
    assert forall e | e in b :: e in multiset(a);
  }

  /** The item list of every group of `gs`, in its `getItems()` order. */
  function ListsOf(gs: Entries<Group.SettingGroup>): (r: seq<Entries<Item.SettingItem>>)
    reads GroupsIn(gs), ItemsIn(gs)
    ensures |r| == |gs|
    ensures forall i | 0 <= i < |gs| :: r[i] == gs[i].1.GetItems()
  {
    assert forall i | 0 <= i < |gs| :: gs[i].1 in GroupsIn(gs) && gs[i].1.Objects() <= ItemsIn(gs) by {
      forall i | 0 <= i < |gs| ensures gs[i].1 in GroupsIn(gs) && gs[i].1.Objects() <= ItemsIn(gs) {
        assert gs[i] in gs;
      }
    }
    seq(|gs|, i reads GroupsIn(gs), ItemsIn(gs)
      requires 0 <= i < |gs| && gs[i].1 in GroupsIn(gs) && gs[i].1.Objects() <= ItemsIn(gs) =>
      gs[i].1.GetItems())
  }

  /**
   * What `getSettingItem($key)` finds in the item lists: they are merged
   * one after the other, and the merged entry under `k` is the answer.
   */
  function LookupItem<T>(ls: seq<Entries<T>>, k: string): Option<T>
  {
    if Has(MergeAll(ls), k) then Some(Get(MergeAll(ls), k)) else None
  }

  /** Nothing is found iff no list holds the key. */
  lemma LookupNone<T>(ls: seq<Entries<T>>, k: string)
    ensures LookupItem(ls, k).None? <==> forall i | 0 <= i < |ls| :: !Has(ls[i], k)
  {
    if Has(MergeAll(ls), k) {
      var i := MergeAllSource(ls, k);
    } else {
      forall i | 0 <= i < |ls| ensures !Has(ls[i], k) {
        if Has(ls[i], k) { MergeAllHas(ls, k, i); }
      }
    }
  }

  /** Later wins: when several lists hold the key, the last of them supplies the answer. */
  lemma LookupLast<T>(ls: seq<Entries<T>>, k: string, j: int)
    requires forall i | 0 <= i < |ls| :: UniqueKeys(ls[i])
    requires 0 <= j < |ls| && Has(ls[j], k)
    requires forall l | j < l < |ls| :: !Has(ls[l], k)
    ensures LookupItem(ls, k) == Some(Get(ls[j], k))
  {
    MergeAllGet(ls, k, j);
  }

  /** A found value sits under the key in one of the lists, which is returned. */
  lemma LookupFrom<T>(ls: seq<Entries<T>>, k: string) returns (i: int)
    requires LookupItem(ls, k).Some?
    ensures 0 <= i < |ls| && (k, LookupItem(ls, k).value) in ls[i]
  {
    i := MergeAllFrom(ls, (k, Get(MergeAll(ls), k)));
  }

  /** `g` may be put under its key: it shares no item object with a group under another key. */
  ghost predicate Fits(gs: Entries<Group.SettingGroup>, g: Group.SettingGroup)
    reads GroupsIn(gs), g
  {
    forall e | e in gs && e.0 != g.key :: e.1.Objects() !! g.Objects()
  }

  /** Putting a fitting group under its key keeps the groups well formed. */
  lemma WellFormedPut(gs: Entries<Group.SettingGroup>, repr: set<object>, g: Group.SettingGroup)
    requires WellFormed(gs, repr) && g.Valid() && Fits(gs, g)
    ensures WellFormed(Put(gs, g.key, g), repr + {g} + g.Objects())
    ensures StatesOf(Put(gs, g.key, g), repr + {g} + g.Objects()) == Put(StatesOf(gs, repr), g.key, g.Snapshot())
  {
    StatesPut(gs, repr, g);
    var r := Put(gs, g.key, g);
    forall e, d | e in r && d in r && e.0 != d.0 ensures e.1.Objects() !! d.1.Objects() {
      if e != (g.key, g) && d != (g.key, g) {
        assert e in gs && d in gs;
      } else if e != (g.key, g) {
        assert e in gs;
      } else if d != (g.key, g) {
        assert d in gs;
      }
    }
  }

  /** Putting a group under its key puts its snapshot in the snapshots likewise. */
  lemma StatesPut(gs: Entries<Group.SettingGroup>, repr: set<object>, g: Group.SettingGroup)
    requires Covers(gs, repr)
    ensures Covers(Put(gs, g.key, g), repr + {g} + g.Objects())
    ensures StatesOf(Put(gs, g.key, g), repr + {g} + g.Objects()) == Put(StatesOf(gs, repr), g.key, g.Snapshot())
  {
    var repr' := repr + {g} + g.Objects();
    var r := Put(gs, g.key, g);
    assert Covers(r, repr') by {
      forall e, o | e in r && o in e.1.Objects() ensures o in repr' {
        if e != (g.key, g) { assert e in gs; }
      }
    }
    var m := map h | h in GroupsIn(gs) + {g} :: h.Snapshot();
    var f := (h: Group.SettingGroup) => if h in m then m[h] else Group.GroupState("", "", "", 0, []);
    assert StatesOf(gs, repr) == MapValues(gs, f) by {
      forall i | 0 <= i < |gs| ensures gs[i].1 in m { assert gs[i] in gs; }
    }
    assert StatesOf(r, repr') == MapValues(r, f) by {
      forall i | 0 <= i < |r| ensures r[i].1 in m { assert r[i] in gs || r[i] == (g.key, g); }
    }
    PutMapValues(gs, g.key, g, f);
  }

  /** Forgetting a key keeps the groups well formed and acts on the snapshots as on the objects. */
  lemma WellFormedForget(gs: Entries<Group.SettingGroup>, repr: set<object>, k: string)
    requires WellFormed(gs, repr)
    ensures WellFormed(Forget(gs, k), repr)
    ensures StatesOf(Forget(gs, k), repr) == Forget(StatesOf(gs, repr), k)
  {
    StatesForget(gs, repr, k);
    ForgetUnique(gs, k);
  }

  lemma StatesForget(gs: Entries<Group.SettingGroup>, repr: set<object>, k: string)
    requires Covers(gs, repr)
    ensures Covers(Forget(gs, k), repr)
    ensures StatesOf(Forget(gs, k), repr) == Forget(StatesOf(gs, repr), k)
  {
    var r := Forget(gs, k);
    assert Covers(r, repr) by {
      forall e, o | e in r && o in e.1.Objects() ensures o in repr {
        assert e in gs;
      }
    }
    var m := map g | g in GroupsIn(gs) :: g.Snapshot();
    var f := (g: Group.SettingGroup) => if g in m then m[g] else Group.GroupState("", "", "", 0, []);
    assert StatesOf(gs, repr) == MapValues(gs, f) by {
      forall i | 0 <= i < |gs| ensures gs[i].1 in m { assert gs[i] in gs; }
    }
    assert StatesOf(r, repr) == MapValues(r, f) by {
      forall i | 0 <= i < |r| ensures r[i].1 in m { assert r[i] in gs; }
    }
    ForgetMapValues(gs, k, f);
  }

  // ------------------------------------------------------------------
  // The register
  // ------------------------------------------------------------------

  /** The innermost loop of `massUpdate` on one item: `value($value ?? '', $saveInBetween)` for each pair under the item's key. */
  method ApplyPayloadTo(it: Item.SettingItem, payload: Payload, save: bool, db: Database.SettingsTable)
    modifies it, db
    ensures (it.State(), db.rows) == ApplyPayload(payload, save, old(it.State()), old(db.rows))
  {
    var n := 0;
    while n < |payload|
      invariant 0 <= n <= |payload|
      invariant ApplyPayload(payload[n..], save, it.State(), db.rows) ==
        ApplyPayload(payload, save, old(it.State()), old(db.rows))
    {
      assert payload[n..][1..] == payload[n + 1..];
      if payload[n].0 == it.GetKey() {
        it.SetValue(Coalesce(payload[n].1), save, db);
      }
      n := n + 1;
    }
  }

  /** The two inner loops of `massUpdate` on one group: every item in the order `getItems()` lists them. */
  method AssignValues(g: Group.SettingGroup, payload: Payload, save: bool, db: Database.SettingsTable)
    requires g.Valid()
    modifies g.Objects(), db
    ensures g.Valid()
    ensures g.States() == UpdateItems(old(g.States()), old(db.rows), payload, save).0
    ensures db.rows == UpdateItems(old(g.States()), old(db.rows), payload, save).1
  {
    ghost var es := g.States();
    ghost var step := Visit(payload, save);
    var vs := g.GetItems();
    ghost var order := Group.VisitOrder(es);
    g.ItemsInVisitOrder();
    assert forall j | 0 <= j < |vs| :: vs[j] in g.items by {
      forall j | 0 <= j < |vs| ensures vs[j] in g.items { assert vs[j] in multiset(vs); }
    }
    PermutationUniqueKeys(vs, g.items);
    ghost var done := Group.Sweep(order, db.rows, step);
    forall j | 0 <= j < |order| ensures done.0[j].0 == order[j].0 {
      Group.SweepAt(order, j, old(db.rows), step);
    }
    AssignInOrder(g, vs, payload, save, db);
    RestoreSorted(g, vs, es, order, done.0);
  }

  /** The items, visited in the sorted order `vs`, end up in the states `done` lists for them. */
  lemma RestoreSorted(g: Group.SettingGroup, vs: Entries<Item.SettingItem>, es: Group.ItemStates,
                      order: Group.ItemStates, done: Group.ItemStates)
    requires g.Valid() && Keys(es) == Keys(g.items)
    requires multiset(order) == multiset(es) && |order| == |vs| && forall j | 0 <= j < |vs| :: order[j].0 == vs[j].0
    requires |done| == |order| && forall j | 0 <= j < |order| :: done[j].0 == order[j].0
    requires forall j | 0 <= j < |vs| :: vs[j] in g.items && vs[j].1.State() == done[j].1
    ensures g.States() == Restore(es, done)
  {
    forall p | 0 <= p < |g.items|
      ensures g.States()[p] == Restore(es, done)[p]
    {
      assert Keys(es)[p] == es[p].0;
      RestoreRearranged(es, order, done, p);
      var j :| 0 <= j < |order| && order[j] == es[p] && Restore(es, done)[p] == done[j];
      assert vs[j].0 == g.items[p].0;
      assert vs[j] == g.items[p];
    }
  }

  /** The item loop over the sorted view `vs`, threading the store: the payload loop on each item in turn. */
  method AssignInOrder(g: Group.SettingGroup, vs: Entries<Item.SettingItem>, payload: Payload, save: bool,
                       db: Database.SettingsTable)
    requires g.Valid() && UniqueKeys(vs)
    requires forall j | 0 <= j < |vs| :: vs[j] in g.items
    modifies g.Objects(), db
    ensures g.Valid()
    ensures db.rows == Group.Sweep(old(Group.StatesOf(vs)), old(db.rows), Visit(payload, save)).1
    ensures forall j | 0 <= j < |vs| ::
      vs[j].1.State() == Group.Sweep(old(Group.StatesOf(vs)), old(db.rows), Visit(payload, save)).0[j].1
  {
    ghost var order := Group.StatesOf(vs);
    ghost var r0 := db.rows;
    ghost var step := Visit(payload, save);
    var t := 0;
    while t < |vs|
      invariant 0 <= t <= |vs|
      invariant g.Valid()
      invariant db.rows == Group.Sweep(order[..t], r0, step).1
      invariant forall j | 0 <= j < t :: vs[j].1.State() == Group.Sweep(order[..t], r0, step).0[j].1
      invariant forall j | t <= j < |vs| :: vs[j].1.State() == order[j].1
    {
      AssignItem(g, vs, t, payload, save, db);
      Group.SweepStep(order, t, r0, step);
      t := t + 1;
    }
    assert order[..t] == order;
  }

  /** One item of the sorted view gets the payload; the other items are untouched. */
  method AssignItem(g: Group.SettingGroup, vs: Entries<Item.SettingItem>, t: int, payload: Payload, save: bool,
                    db: Database.SettingsTable)
    requires g.Valid() && 0 <= t < |vs| && UniqueKeys(vs)
    requires forall j | 0 <= j < |vs| :: vs[j] in g.items
    modifies vs[t].1, db
    ensures g.Valid()
    ensures (vs[t].1.State(), db.rows) == ApplyPayload(payload, save, old(vs[t].1.State()), old(db.rows))
    ensures forall j | 0 <= j < |vs| && j != t :: vs[j].1.State() == old(vs[j].1.State())
  {
    var it := vs[t].1;
    ApplyPayloadTo(it, payload, save, db);
    forall j | 0 <= j < |vs| && j != t
      ensures vs[j].1.State() == old(vs[j].1.State())
    {
      assert vs[j].1.key == vs[j].0 && vs[t].1 == it;
    }
  }

  /** A walk's work on one group. */
  method RunTask(g: Group.SettingGroup, t: Task, db: Database.SettingsTable)
    requires g.Valid()
    modifies g.Objects(), db
    ensures g.Valid()
    ensures g.States() == PassOf(t)(old(g.States()), old(db.rows)).0
    ensures db.rows == PassOf(t)(old(g.States()), old(db.rows)).1
  {
    match t {
      case SaveChanged =>
        g.SaveAllChangedValues(db);
      case Assign(payload, save) =>
        AssignValues(g, payload, save, db);
    }
  }

  /** `$container->make(SettingGroup::class)`, given key `k` and configured by `cb`; nothing that existed before changes. */
  method ConfiguredGroup(k: string, cb: seq<Group.GroupSetter>, db: Database.SettingsTable)
    returns (g: Group.SettingGroup, out: Item.Outcome)
    ensures fresh(g) && g.Valid() && g.key == k
    ensures g.Snapshot() == Group.Configured(NewGroup(k), cb).0
    ensures out == Group.Configured(NewGroup(k), cb).1
    ensures forall o | o in g.Objects() :: fresh(o)
  {
    g := new Group.SettingGroup();
    g.SetKey(k);
    assert g.Snapshot() == NewGroup(k);
    out := g.Configure(cb, db);
  }

  class SettingRegister {
    var groups: Entries<Group.SettingGroup>
    /** The group and item objects this register holds (and perhaps some it held before). */
    ghost var Repr: set<object>

    /** The group objects of this register. */
    function GroupObjects(): set<Group.SettingGroup>
      reads this
    {
      GroupsIn(groups)
    }

    /** The item objects of this register's groups. */
    function ItemObjects(): set<Item.SettingItem>
      reads this, GroupObjects()
    {
      ItemsIn(groups)
    }

    ghost predicate Valid()
      reads this, Repr
    {
      OnlyGroupsAndItems(Repr) && WellFormed(groups, Repr)
    }

    ghost function Snapshot(): GroupStates
      requires Valid()
      reads this, Repr
    {
      StatesOf(groups, Repr)
    }

    /** `new SettingRegister($container)`: no groups, and a `SettingsRegistering` event for the new register. */
    constructor(events: Dispatcher)
      modifies events
      ensures Valid() && groups == [] && Repr == {}
      ensures events.log == old(events.log) + [SettingsRegistering(this)]
    {
      groups := [];
      Repr := {};
      new;
      events.Dispatch(SettingsRegistering(this));
    }

    /** Each entry's priority, in collection order. */
    function Priorities(): (r: seq<int>)
      reads this, GroupObjects()
      ensures |r| == |groups|
      ensures forall i | 0 <= i < |groups| :: r[i] == groups[i].1.priority
    {
      seq(|groups|, i reads this, GroupObjects() requires 0 <= i < |groups| => groups[i].1.priority)
    }

    /** `getGroups()`: the entries by non-increasing priority; the stored order is left as it is. */
    function GetGroups(): (r: Entries<Group.SettingGroup>)
      reads this, GroupObjects()
      ensures multiset(r) == multiset(groups)
      ensures forall i, j | 0 <= i < j < |r| :: r[i].1.priority >= r[j].1.priority
    {
      GroupsSorted();
      Sorting.SortByDesc(groups, Priorities())
    }

    /** The sorted groups are a rearrangement of `groups`, by non-increasing priority. */
    lemma GroupsSorted()
      ensures multiset(Sorting.SortByDesc(groups, Priorities())) == multiset(groups)
      ensures forall i, j | 0 <= i < j < |groups| ::
        Sorting.SortByDesc(groups, Priorities())[i].1.priority >= Sorting.SortByDesc(groups, Priorities())[j].1.priority
    {
      var m := map o | o in GroupObjects() :: o.priority;
      var key := (e: (string, Group.SettingGroup)) => if e.1 in m then m[e.1] else 0;
      var r := Sorting.SortByDesc(groups, Priorities());
      Sorting.SortByDescPermutes(groups, Priorities());
      assert forall i | 0 <= i < |groups| :: Priorities()[i] == key(groups[i]) by {
        forall i | 0 <= i < |groups| ensures groups[i].1 in m { assert groups[i] in groups; }
      }
      Sorting.SortByDescOrdered(groups, Priorities(), key);
      assert forall i | 0 <= i < |r| :: key(r[i]) == r[i].1.priority by {
        forall i | 0 <= i < |r| ensures r[i].1 in m { assert r[i] in multiset(r); }
      }
    }

    /** `getGroup($key)`: the group under `key`, or a new group with that key, which is not added. */
    method GetGroup(k: string) returns (g: Group.SettingGroup)
      requires Valid()
      ensures Has(groups, k) ==> g == Get(groups, k) && g.key == k
      ensures !Has(groups, k) ==> fresh(g) && g.Valid() && g.Snapshot() == Group.GroupState(k, "", "", 0, [])
    {
      if Has(groups, k) {
        g := Get(groups, k);
      } else {
        g := new Group.SettingGroup();
        g.SetKey(k);
      }
    }

    /** `addGroup($group)`: the group is put under its own key. */
    method AddGroup(g: Group.SettingGroup)
      requires Valid() && g.Valid() && Fits(groups, g)
      modifies this
      ensures Valid()
      ensures groups == Put(old(groups), g.key, g)
      ensures Repr == old(Repr) + {g} + g.Objects()
      ensures Snapshot() == Put(old(Snapshot()), g.key, old(g.Snapshot()))
    {
      WellFormedPut(groups, Repr, g);
      OnlyGroupsAndItemsAdd(Repr, {g}, g.Objects());
      Store(Put(groups, g.key, g), Repr + {g} + g.Objects());
    }

    /** `group($k, $cb)` when `k` is present at `i`: the group is configured in place and, unless the closure threw, put back. */
    method GroupExisting(i: int, k: string, cb: seq<Group.GroupSetter>, db: Database.SettingsTable) returns (out: Item.Outcome)
      requires Valid() && 0 <= i < |groups| && groups[i].0 == k
      modifies this, groups[i].1, groups[i].1.Objects()
      ensures Valid()
      ensures Snapshot() == UpsertGroup(old(Snapshot()), k, cb).0
      ensures out == UpsertGroup(old(Snapshot()), k, cb).1
    {
      ghost var before := Snapshot();
      UpsertGroupAt(before, i, k, cb);
      ghost var want := before[i := (k, Group.Configured(before[i].1, cb).0)];
      assert want == UpsertGroup(before, k, cb).0;
      out := ConfigureAt(i, cb, db);
      assert Snapshot() == want;
      if out.Pass? {
        AddPresent(i);
      }
    }

    /** `addGroup` of a group that is already in place at `i`: nothing changes. */
    method AddPresent(i: int)
      requires Valid() && 0 <= i < |groups|
      modifies this
      ensures Valid() && Snapshot() == old(Snapshot())
    {
      var g := groups[i].1;
      assert groups[i] in groups;
      PutPresent(groups, i, g.key, g);
      PutPresent(Snapshot(), i, g.key, g.Snapshot());
      AddGroup(g);
    }

    /** Runs a configurator on the group at `i`; the other groups are untouched, and its new items join the footprint. */
    method ConfigureAt(i: int, cb: seq<Group.GroupSetter>, db: Database.SettingsTable) returns (out: Item.Outcome)
      requires Valid() && 0 <= i < |groups|
      modifies this, groups[i].1, groups[i].1.Objects()
      ensures Valid() && groups == old(groups)
      ensures groups[i].1.Snapshot() == Group.Configured(old(groups[i].1.Snapshot()), cb).0
      ensures out == Group.Configured(old(groups[i].1.Snapshot()), cb).1
      ensures Snapshot() == old(Snapshot())[i := (groups[i].0, groups[i].1.Snapshot())]
    {
      var g := groups[i].1;
      out := ConfigureInPlace(i, cb, db);
      OnlyGroupsAndItemsAdd(Repr, {}, g.Objects());
      Store(groups, Repr + g.Objects());
    }

    /** The configurator run itself: afterwards the groups are well formed over the footprint grown by the group's items. */
    method ConfigureInPlace(i: int, cb: seq<Group.GroupSetter>, db: Database.SettingsTable) returns (out: Item.Outcome)
      requires Valid() && 0 <= i < |groups|
      modifies groups[i].1, groups[i].1.Objects()
      ensures groups[i].1.Snapshot() == Group.Configured(old(groups[i].1.Snapshot()), cb).0
      ensures out == Group.Configured(old(groups[i].1.Snapshot()), cb).1
      ensures WellFormed(groups, Repr + groups[i].1.Objects())
      ensures StatesOf(groups, Repr + groups[i].1.Objects()) == old(Snapshot())[i := (groups[i].0, groups[i].1.Snapshot())]
    {
      var g := groups[i].1;
      ghost var k := groups[i].0;
      assert groups[i] in groups;
      out := g.Configure(cb, db);
      forall e | e in groups && e.0 != k
        ensures e.1 != g && e.1.Objects() == old(e.1.Objects()) && e.1.Snapshot() == old(e.1.Snapshot())
        ensures e.1.Valid() && e.1.key == e.0
      {
        assert e.1.key != g.key;
      }
      ghost var repr := Repr + g.Objects();
      assert Covers(groups, repr) by {
        forall e, o | e in groups && o in e.1.Objects() ensures o in repr {
          if e.0 != k { assert o in old(e.1.Objects()); }
        }
      }
      forall e, d | e in groups && d in groups && e.0 != d.0 ensures e.1.Objects() !! d.1.Objects() {
        if e.0 == k {
          assert d.1.Objects() == old(d.1.Objects()) && old(d.1.Objects()) !! old(g.Objects());
        } else if d.0 == k {
          assert e.1.Objects() == old(e.1.Objects()) && old(e.1.Objects()) !! old(g.Objects());
        }
      }
    }

    /** `group($k, $cb)` when `k` is absent: a new group is configured and, unless the closure threw, added. */
    method GroupNew(k: string, cb: seq<Group.GroupSetter>, db: Database.SettingsTable) returns (out: Item.Outcome)
      requires Valid() && !Has(groups, k)
      modifies this
      ensures Valid()
      ensures Snapshot() == UpsertGroup(old(Snapshot()), k, cb).0
      ensures out == UpsertGroup(old(Snapshot()), k, cb).1
    {
      ghost var before := Snapshot();
      assert !Has(before, k);
      UpsertGroupNew(before, k, cb);
      ghost var c := Group.Configured(NewGroup(k), cb);
      ghost var want := if c.1.Pass? then before + [(k, c.0)] else before;
      assert want == UpsertGroup(before, k, cb).0;
      var g;
      g, out := ConfiguredGroup(k, cb, db);
      if out.Pass? {
        assert Fits(groups, g);
        AddGroup(g);
      }
      assert Snapshot() == want;
    }

    /** `group($key, $callback)`: configures the group under `key`, creating it when absent. */
    method GroupCall(k: string, cb: seq<Group.GroupSetter>, db: Database.SettingsTable) returns (out: Item.Outcome)
      requires Valid()
      modifies this, Repr
      ensures Valid()
      ensures Snapshot() == UpsertGroup(old(Snapshot()), k, cb).0
      ensures out == UpsertGroup(old(Snapshot()), k, cb).1
    {
      var i := IndexOf(groups, k);
      if i < |groups| {
        assert groups[i] in groups;
        out := GroupExisting(i, k, cb, db);
      } else {
        out := GroupNew(k, cb, db);
      }
    }

    /** The task on the group at `i`; the other groups are untouched. */
    method RunAt(i: int, t: Task, db: Database.SettingsTable)
      requires Valid() && 0 <= i < |groups|
      modifies groups[i].1.Objects(), db
      ensures Valid()
      ensures Snapshot() == old(Snapshot())[i := (old(Snapshot())[i].0,
        old(Snapshot())[i].1.(items := PassOf(t)(old(Snapshot())[i].1.items, old(db.rows)).0))]
      ensures db.rows == PassOf(t)(old(Snapshot())[i].1.items, old(db.rows)).1
    {
      var g := groups[i].1;
      ghost var k := groups[i].0;
      assert groups[i] in groups;
      RunTask(g, t, db);
      forall e | e in groups && e.0 != k
        ensures e.1 != g && e.1.Snapshot() == old(e.1.Snapshot()) && e.1.Valid()
      {
        assert e.1.key != g.key;
      }
      assert Snapshot() == old(Snapshot())[i := (k, g.Snapshot())];
    }

    /** The groups in collection order, each given the task, the store threaded through. */
    method ForEachGroup(t: Task, db: Database.SettingsTable)
      requires Valid()
      modifies ItemObjects(), db
      ensures Valid()
      ensures Snapshot() == GroupSweep(old(Snapshot()), old(db.rows), PassOf(t)).0
      ensures db.rows == GroupSweep(old(Snapshot()), old(db.rows), PassOf(t)).1
    {
      ghost var s0 := Snapshot();
      ghost var r0 := db.rows;
      assert s0[..0] == [];
      var i := 0;
      while i < |groups|
        invariant 0 <= i <= |groups|
        invariant Valid()
        invariant Swept(s0, r0, PassOf(t), i, Snapshot(), db.rows)
      {
        StepGroup(i, t, db, s0, r0);
        i := i + 1;
      }
      SweptAll(s0, r0, PassOf(t), Snapshot(), db.rows);
    }

    /** The group at `i` is given the task: the swept prefix grows by one group. */
    method StepGroup(i: int, t: Task, db: Database.SettingsTable, ghost s0: GroupStates, ghost r0: Rows)
      requires Valid() && 0 <= i < |groups|
      requires Swept(s0, r0, PassOf(t), i, Snapshot(), db.rows)
      modifies groups[i].1.Objects(), db
      ensures Valid()
      ensures Swept(s0, r0, PassOf(t), i + 1, Snapshot(), db.rows)
    {
      ghost var snap := Snapshot();
      ghost var rows := db.rows;
      RunAt(i, t, db);
      SweptStep(s0, r0, PassOf(t), i, snap, rows);
    }

    /** `saveAllChangedValues()`: every group saves its items, groups in collection order. */
    method SaveAllChangedValues(db: Database.SettingsTable)
      requires Valid()
      modifies ItemObjects(), db
      ensures Valid()
      ensures Snapshot() == SaveGroups(old(Snapshot()), old(db.rows)).0
      ensures db.rows == SaveGroups(old(Snapshot()), old(db.rows)).1
    {
      ForEachGroup(SaveChanged, db);
    }

    /**
     * `massUpdate($keyValueArray, $saveInBetween)`: the update loops, then,
     * unless every item saved as it went, one save of every group and a
     * `SettingsUpdated` event carrying the array.
     */
    method MassUpdate(payload: Payload, save: bool, db: Database.SettingsTable, events: Dispatcher)
      requires Valid()
      modifies ItemObjects(), db, events
      ensures Valid()
      ensures Snapshot() == MassUpdated(old(Snapshot()), old(db.rows), payload, save).0
      ensures db.rows == MassUpdated(old(Snapshot()), old(db.rows), payload, save).1
      ensures events.log == if save then old(events.log) else old(events.log) + [SettingsUpdated(payload)]
    {
      ghost var updated := UpdateGroups(Snapshot(), db.rows, payload, save);
      ForEachGroup(Assign(payload, save), db);
      assert Snapshot() == updated.0 && db.rows == updated.1;
      if !save {
        SaveAndAnnounce(payload, db, events);
      }
    }

    /** The end of `massUpdate` without saving in between: one save of every group, then the event. */
    method SaveAndAnnounce(payload: Payload, db: Database.SettingsTable, events: Dispatcher)
      requires Valid()
      modifies ItemObjects(), db, events
      ensures Valid()
      ensures Snapshot() == SaveGroups(old(Snapshot()), old(db.rows)).0
      ensures db.rows == SaveGroups(old(Snapshot()), old(db.rows)).1
      ensures events.log == old(events.log) + [SettingsUpdated(payload)]
    {
      SaveAllChangedValues(db);
      assert events !in Repr;
      events.Dispatch(SettingsUpdated(payload));
    }

    /** Replaces the groups and the footprint; what the new groups depend on is untouched. */
    method Store(next: Entries<Group.SettingGroup>, ghost repr: set<object>)
      requires OnlyGroupsAndItems(repr) && Covers(next, repr)
      modifies this
      ensures groups == next && Repr == repr
      ensures WellFormed(next, repr) == old(WellFormed(next, repr))
      ensures StatesOf(next, repr) == old(StatesOf(next, repr))
    {
      groups := next;
      Repr := repr;
    }

    /** `removeGroup($key)`: the group under `key` is dropped, if there is one. */
    method RemoveGroup(k: string)
      requires Valid()
      modifies this
      ensures Valid() && Repr == old(Repr)
      ensures groups == if Has(old(groups), k) then Forget(old(groups), k) else old(groups)
      ensures Has(old(groups), k) ==>
        groups == old(groups)[..IndexOf(old(groups), k)] + old(groups)[IndexOf(old(groups), k) + 1..]
      ensures Snapshot() == Forget(old(Snapshot()), k)
    {
      WellFormedForget(groups, Repr, k);
      if Has(groups, k) {
        ForgetAt(groups, k);
        Store(Forget(groups, k), Repr);
      } else {
        ForgetAbsent(groups, k);
      }
    }

    /**
     * The lookup of `getSettingItem($key)` on this register: the item lists
     * are merged, and the first merged item whose key is `k` is returned.
     */
    method FindItem(k: string) returns (r: Option<Item.SettingItem>)
      requires Valid()
      ensures r == LookupItem(old(ItemLists()), k)
      ensures r.Some? ==> r.value.key == k && r.value in old(ItemObjects())
      ensures r.None? <==> forall e | e in old(groups) :: !Has(e.1.items, k)
    {
      var gs := GetGroups();
      ghost var ls := ItemLists();
      MergedKeyed(gs);
      Found(gs, k, LookupItem(ls, k));
      var items := MergeItems(gs, ls);
      r := FirstWithKey(items, k);
    }

    /** The item lists `getSettingItem` merges: those of the groups in `getGroups()` order. */
    ghost function ItemLists(): seq<Entries<Item.SettingItem>>
      requires Valid()
      reads this, Repr
    {
      PermutedObjects(groups, GetGroups());
      ListsOf(GetGroups())
    }

    /** What the merged lookup means for this register's groups. */
    lemma Found(gs: Entries<Group.SettingGroup>, k: string, r: Option<Item.SettingItem>)
      requires Valid() && gs == GetGroups()
      requires r == LookupItem(ListsOf(gs), k)
      ensures r.Some? ==> r.value in ItemObjects()
      ensures r.None? <==> forall e | e in groups :: !Has(e.1.items, k)
    {
      if r.Some? {
        MergedOwned(gs, IndexOf(MergeAll(ListsOf(gs)), k));
      }
      ListsHold(k);
      LookupNone(ListsOf(gs), k);
    }

    /** Every merged entry sits under its own item's key. */
    lemma MergedKeyed(gs: Entries<Group.SettingGroup>)
      requires Valid() && gs == GetGroups()
      ensures forall e | e in MergeAll(ListsOf(gs)) :: e.0 == e.1.key
    {
      forall e | e in MergeAll(ListsOf(gs)) ensures e.0 == e.1.key {
        var g := MergedSource(MergeAll(ListsOf(gs)), e);
      }
    }

    /** Every merged item belongs to this register. */
    lemma MergedOwned(gs: Entries<Group.SettingGroup>, p: int)
      requires Valid() && gs == GetGroups() && 0 <= p < |MergeAll(ListsOf(gs))|
      ensures MergeAll(ListsOf(gs))[p].1 in ItemObjects()
    {
      var items := MergeAll(ListsOf(gs));
      var g := MergedSource(items, items[p]);
      InItemsIn(groups, g, items[p].1);
    }

    /** The group a merged entry comes from. */
    lemma MergedSource(items: Entries<Item.SettingItem>, e: (string, Item.SettingItem)) returns (g: (string, Group.SettingGroup))
      requires Valid() && items == MergeAll(ListsOf(GetGroups())) && e in items
      ensures g in groups && e in g.1.items && g.1.Valid()
      ensures e.0 == e.1.key && e.1 in g.1.Objects()
    {
      var gs := GetGroups();
      var i := MergeAllFrom(ListsOf(gs), e);
      g := gs[i];
      assert g in multiset(groups);
      assert e in multiset(g.1.items);
    }

    /** Some item list holds `k` iff some group holds an item under `k`. */
    lemma ListsHold(k: string)
      requires Valid()
      ensures (forall i | 0 <= i < |ListsOf(GetGroups())| :: !Has(ListsOf(GetGroups())[i], k)) <==>
        forall e | e in groups :: !Has(e.1.items, k)
    {
      var gs := GetGroups();
      var ls := ListsOf(gs);
      if forall i | 0 <= i < |ls| :: !Has(ls[i], k) {
        forall e | e in groups ensures !Has(e.1.items, k) {
          assert e in multiset(gs);
          var i :| 0 <= i < |gs| && gs[i] == e;
          assert e.1.Valid();
          PermutationGet(gs[i].1.GetItems(), gs[i].1.items, k);
        }
      } else {
        var i :| 0 <= i < |ls| && Has(ls[i], k);
        assert gs[i] in multiset(groups);
        assert gs[i] in groups && gs[i].1.Valid();
        PermutationGet(gs[i].1.GetItems(), gs[i].1.items, k);
      }
    }
  }

  /** What the application container holds under 'settings'. */
  datatype Binding = Unbound | Foreign | Bound(register: SettingRegister)

  /** A static call that returns normally or raises PHP's `TypeError`. */
  datatype Call<T> = Returned(value: T) | TypeError

  /** The application container, as far as its 'settings' binding goes. */
  class Container {
    var settings: Binding

    /** A register bound under 'settings' is valid. */
    ghost predicate Valid()
      reads this, if settings.Bound? then {settings.register} + settings.register.Repr else {}
    {
      settings.Bound? ==> settings.register.Valid()
    }

    constructor(b: Binding)
      ensures settings == b
    {
      settings := b;
    }

    /** `checkInstance()`: a register is bound under 'settings'. */
    predicate CheckInstance()
      reads this
    {
      settings.Bound?
    }

    /** `init()`: only when nothing is bound, a new register is created and bound. */
    method Init(events: Dispatcher)
      requires Valid()
      modifies this, events
      ensures Valid()
      ensures old(settings).Unbound? ==>
        && settings.Bound? && fresh(settings.register)
        && settings.register.groups == [] && settings.register.Repr == {}
        && events.log == old(events.log) + [SettingsRegistering(settings.register)]
      ensures !old(settings).Unbound? ==> settings == old(settings) && events.log == old(events.log)
      ensures old(settings).Bound? ==>
        && settings.register.groups == old(settings.register.groups)
        && settings.register.ItemLists() == old(settings.register.ItemLists())
    {
      if settings.Unbound? && !CheckInstance() {
        var register := new SettingRegister(events);
        settings := Bound(register);
      }
    }

    /**
     * `getInstance()`: `init()`, then the bound register; a foreign binding
     * does not satisfy the declared return type. A register already bound
     * is returned again and nothing is dispatched.
     */
    method GetInstance(events: Dispatcher) returns (r: Call<SettingRegister>)
      requires Valid()
      modifies this, events
      ensures Valid()
      ensures old(settings).Unbound? ==>
        && settings.Bound? && fresh(settings.register)
        && settings.register.groups == [] && settings.register.Repr == {}
        && events.log == old(events.log) + [SettingsRegistering(settings.register)]
      ensures !old(settings).Unbound? ==> settings == old(settings) && events.log == old(events.log)
      ensures old(settings).Bound? ==>
        && settings.register.groups == old(settings.register.groups)
        && settings.register.ItemLists() == old(settings.register.ItemLists())
      ensures r == if settings.Bound? then Returned(settings.register) else TypeError
    {
      Init(events);
      if settings.Bound? {
        r := Returned(settings.register);
      } else {
        r := TypeError;
      }
    }

    /**
     * `getSettingItem($key)`: the lookup on the register `getInstance()`
     * returns. A register bound before the call answers from its groups; a
     * register the call itself binds has none and finds nothing.
     */
    method GetSettingItem(k: string, events: Dispatcher) returns (r: Call<Option<Item.SettingItem>>)
      requires Valid()
      modifies this, events
      ensures Valid()
      ensures !old(settings).Unbound? ==> settings == old(settings) && events.log == old(events.log)
      ensures old(settings).Unbound? ==>
        && settings.Bound? && fresh(settings.register) && settings.register.groups == []
        && events.log == old(events.log) + [SettingsRegistering(settings.register)]
      ensures r.TypeError? <==> settings.Foreign?
      ensures old(settings).Unbound? ==> r == Returned(None)
      ensures old(settings).Bound? ==> r == Returned(LookupItem(old(settings.register.ItemLists()), k))
      ensures old(settings).Bound? ==> (r.value.None? <==>
        forall e | e in old(settings.register.groups) :: !Has(e.1.items, k))
      ensures r.Returned? && r.value.Some? ==> r.value.value.key == k
    {
      var instance := GetInstance(events);
      if instance.TypeError? {
        return TypeError;
      }
      var found := instance.value.FindItem(k);
      r := Returned(found);
    }
  }
}
