/**
 * SettingItem: one typed setting. An item has a key, a display name, a
 * type drawn from SettingType, a priority, an options array (of which only
 * `default` matters here), a memoised display field, a cached value and a
 * dirty flag. Its value is resolved against the settings store and written
 * back to it by a three-branch save protocol.
 *
 * The behaviour is specified on the snapshot `ItemState` by pure functions
 * over an item and the store's rows; the class `SettingItem` holds the same
 * fields and each of its methods is proved to act as the matching function.
 */
module Item {
  import opened Php
  import SettingType
  import BaseEnum
  import Database

  /** The eight field classes a setting can be shown with, one per setting type. */
  datatype FieldKind =
    | BooleanField | TextField | NumberField | TextareaField
    | CodeField | DateField | DateTimeField | PasswordField

  /** A display field: its class, the attribute (key) it is made for, its caption and its value. */
  datatype Field = Field(kind: FieldKind, attribute: string, name: string, value: Value)

  /** `SettingTypeNotValidException`, carrying the rejected type. */
  datatype Error = SettingTypeNotValid(given: string)

  /** Whether a call returned normally or threw. */
  datatype Outcome = Pass | Fail(error: Error)

  type Rows = map<string, string>

  /** The options array; the value under "default" is the fallback value. */
  type Options = map<string, Value>

  /** The fields of an item. `settingType` is the source's `type`. */
  datatype ItemState = ItemState(
    key: string,
    name: string,
    settingType: string,
    priority: int,
    options: Options,
    field: Option<Field>,
    value: Value,
    changed: bool)

  /** A setter a configurator closure may call on an item (the key setter is not among them). */
  datatype ItemSetter =
    | NameIs(name: string)
    | TypeIs(settingType: string)
    | PriorityIs(priority: int)
    | OptionsAre(options: Options)
    | FieldIs(field: Field)

  // ------------------------------------------------------------------
  // Specification on snapshots
  // ------------------------------------------------------------------

  /** The field initialisers, before the constructor resolves the value. An unset key reads as "". */
  function Declared(): ItemState
  {
    ItemState("", "", SettingType.TEXT, 0, map[], None, Str(""), false)
  }

  /** `getKey()` is truthy: the key is neither "" nor "0". */
  predicate HasKey(st: ItemState)
  {
    !EmptyString(st.key)
  }

  /** `isset($options['default'])`: present and not null. */
  function DefaultOption(options: Options): (r: Option<string>)
    ensures r.Some? <==> "default" in options && options["default"].Str?
    ensures r.Some? ==> options["default"] == Str(r.value)
  {
    if "default" in options && options["default"].Str? then Some(options["default"].s) else None
  }

  /** The row the store holds for the item's key, when the key is usable. */
  function StoredRow(st: ItemState, rows: Rows): (r: Option<string>)
    ensures r.Some? <==> HasKey(st) && st.key in rows
    ensures r.Some? ==> r.value == rows[st.key]
  {
    if HasKey(st) && st.key in rows then Some(rows[st.key]) else None
  }

  /**
   * `getValue()`: an existing row for a usable key replaces the cached value;
   * an empty value then falls back to the default option; a value that is still
   * empty becomes null. The force flag does not take part: whenever the key is
   * usable the store is read, and otherwise it is not.
   */
  function Resolved(st: ItemState, rows: Rows): (r: ItemState)
    ensures r == st.(value := r.value)
    ensures r.value.Null? || !Empty(r.value)
    ensures StoredRow(st, rows).Some? && !EmptyString(StoredRow(st, rows).value) ==>
      r.value == Str(StoredRow(st, rows).value)
    ensures StoredRow(st, rows).None? && !Empty(st.value) ==> r.value == st.value
    ensures
      && (StoredRow(st, rows).Some? ==> EmptyString(StoredRow(st, rows).value))
      && (StoredRow(st, rows).None? ==> Empty(st.value))
      && DefaultOption(st.options).Some? && !EmptyString(DefaultOption(st.options).value)
      ==> r.value == Str(DefaultOption(st.options).value)
    ensures r.value.Null? <==>
      (StoredRow(st, rows).Some? ==> EmptyString(StoredRow(st, rows).value)) &&
      (StoredRow(st, rows).None? ==> Empty(st.value)) &&
      (DefaultOption(st.options).Some? ==> EmptyString(DefaultOption(st.options).value))
  {
    var read := if StoredRow(st, rows).Some? then Str(StoredRow(st, rows).value) else st.value;
    var withDefault :=
      if Empty(read) && DefaultOption(st.options).Some? then Str(DefaultOption(st.options).value)
      else read;
    st.(value := if Empty(withDefault) then Null else withDefault)
  }

  /** The state right after construction: the constructor's `getValue()` turns '' into null. */
  function Initial(): (st: ItemState)
    ensures st == Declared().(value := Null)
  {
    Resolved(Declared(), map[])
  }

  /** `value($v, false)`: the new value is cached and the dirty flag says whether it differs from the old one. */
  function Assigned(st: ItemState, v: Value): (r: ItemState)
    ensures r.value == v
    ensures r.changed <==> st.value != v
    ensures r == st.(value := v, changed := r.changed)
  {
    st.(changed := st.value != v, value := v)
  }

  /** `setDefaultValue()`: the default option, or '' when there is none. */
  function DefaultValue(options: Options): (v: Value)
    ensures v.Str?
    ensures DefaultOption(options).Some? ==> v == options["default"]
    ensures DefaultOption(options).None? ==> v == Str("")
  {
    match DefaultOption(options)
    case Some(d) => Str(d)
    case None => Str("")
  }

  /** Only the cached value and the dirty flag differ between `a` and `b`. */
  predicate SameButValue(a: ItemState, b: ItemState)
  {
    b == a.(value := b.value, changed := b.changed)
  }

  /**
   * `save()`: a clean item or an unusable key does nothing. With a row for the
   * key, a non-null value is written and the item becomes clean, while a null
   * value writes nothing. Without a row, a null value is first replaced by
   * the default value and a row is inserted; the flag is left as it was.
   */
  function Saved(st: ItemState, rows: Rows): (r: (ItemState, Rows))
    ensures SameButValue(st, r.0)
    ensures !st.changed || !HasKey(st) ==> r == (st, rows)
    ensures forall k | k != st.key :: (k in r.1 <==> k in rows) && (k in rows ==> r.1[k] == rows[k])
    ensures st.changed && HasKey(st) && st.key in rows && st.value.Null? ==> r == (st, rows)
    ensures st.changed && HasKey(st) && st.key in rows && st.value.Str? ==>
      r.0 == st.(changed := false) && r.1 == rows[st.key := st.value.s]
    ensures st.changed && HasKey(st) && st.key !in rows ==>
      r.0.changed && r.0.value.Str? && r.1 == rows[st.key := r.0.value.s] &&
      r.0.value == (if st.value.Null? then DefaultValue(st.options) else st.value)
  {
    if !st.changed || !HasKey(st) then (st, rows)
    else if st.key in rows then
      if st.value.Str? then (st.(changed := false), rows[st.key := st.value.s])
      else (st, rows)
    else
      var filled := if st.value.Null? then st.(value := DefaultValue(st.options)) else st;
      (filled, rows[st.key := filled.value.s])
  }

  /** `value($v, $save)`: assignment, then a save when asked. */
  function ValueCall(st: ItemState, v: Value, save: bool, rows: Rows): (r: (ItemState, Rows))
    ensures SameButValue(st, r.0)
    ensures !save ==> r == (Assigned(st, v), rows)
    ensures save ==> r == Saved(Assigned(st, v), rows)
  {
    if save then Saved(Assigned(st, v), rows) else (Assigned(st, v), rows)
  }

  /** `getNameUsingKey()`: underscores become spaces and each word is capitalised (ASCII only). */
  function NameUsingKey(key: string): (r: string)
    ensures |r| == |key|
    ensures forall i | 0 <= i < |key| :: key[i] == '_' ==> r[i] == ' '
    ensures forall i | 0 <= i < |key| :: key[i] != '_' ==> LowerChar(r[i]) == LowerChar(key[i])
  {
    seq(|key|, i requires 0 <= i < |key| =>
      if key[i] == '_' then ' '
      else if i == 0 || key[i - 1] == '_' || key[i - 1] == ' ' then UpperChar(key[i])
      else LowerChar(key[i]))
  }

  /** `getName()`: a non-empty name, otherwise the name derived from the key. */
  function DisplayName(st: ItemState): (r: string)
    ensures !EmptyString(st.name) ==> r == st.name
    ensures EmptyString(st.name) ==> r == NameUsingKey(st.key)
  {
    if !EmptyString(st.name) then st.name else NameUsingKey(st.key)
  }

  /** The setting type a field class stands for. */
  function KindType(k: FieldKind): string
  {
    match k
    case BooleanField => SettingType.BOOLEAN
    case TextField => SettingType.TEXT
    case NumberField => SettingType.NUMBER
    case TextareaField => SettingType.TEXTAREA
    case CodeField => SettingType.CODE
    case DateField => SettingType.DATE
    case DateTimeField => SettingType.DATETIME
    case PasswordField => SettingType.PASSWORD
  }

  /**
   * `getFieldByType($type)`: a field of the class named by the type, made for
   * the key and labelled with the display name; any other type gets a text
   * field, which keeps the caption `make` gives it, the key.
   */
  function FieldByType(t: string, key: string, displayName: string): (f: Field)
    ensures f.attribute == key && f.value == Null
    ensures BaseEnum.ValidType(t) ==> KindType(f.kind) == t && f.name == displayName
    ensures !BaseEnum.ValidType(t) ==> f == Field(TextField, key, key, Null)
  {
    BaseEnum.TypeDomain(t);
    if t == SettingType.TEXT then Field(TextField, key, displayName, Null)
    else if t == SettingType.BOOLEAN then Field(BooleanField, key, displayName, Null)
    else if t == SettingType.NUMBER then Field(NumberField, key, displayName, Null)
    else if t == SettingType.TEXTAREA then Field(TextareaField, key, displayName, Null)
    else if t == SettingType.DATE then Field(DateField, key, displayName, Null)
    else if t == SettingType.DATETIME then Field(DateTimeField, key, displayName, Null)
    else if t == SettingType.CODE then Field(CodeField, key, displayName, Null)
    else if t == SettingType.PASSWORD then Field(PasswordField, key, displayName, Null)
    else Field(TextField, key, key, Null)
  }

  /**
   * `getField()`: the field is made from the type on the first call only;
   * every call relabels it with the display name and gives it the resolved value.
   */
  function WithField(st: ItemState, rows: Rows): (r: (ItemState, Field))
    ensures r.0 == Resolved(st, rows).(field := Some(r.1))
    ensures r.1.name == DisplayName(st) && r.1.value == Resolved(st, rows).value
    ensures st.field.Some? ==> r.1.kind == st.field.value.kind && r.1.attribute == st.field.value.attribute
    ensures st.field.None? ==>
      r.1.kind == FieldByType(st.settingType, st.key, DisplayName(st)).kind && r.1.attribute == st.key
  {
    var made := if st.field.None? then st.(field := Some(FieldByType(st.settingType, st.key, DisplayName(st)))) else st;
    var caption := DisplayName(made);
    var resolved := Resolved(made, rows);
    var f := made.field.value.(name := caption, value := resolved.value);
    (resolved.(field := Some(f)), f)
  }

  /** `type($t)`: accepted only when `t` is a SettingType value; otherwise it throws and nothing changes. */
  function WithType(st: ItemState, t: string): (r: (ItemState, Outcome))
    ensures r.1.Pass? <==> BaseEnum.ValidType(t)
    ensures r.1.Pass? ==> r.0 == st.(settingType := t)
    ensures r.1.Fail? ==> r.0 == st && r.1.error == SettingTypeNotValid(t)
  {
    if BaseEnum.ValidType(t) then (st.(settingType := t), Pass) else (st, Fail(SettingTypeNotValid(t)))
  }

  /** One setter call. */
  function ApplySetter(st: ItemState, s: ItemSetter): (r: (ItemState, Outcome))
    ensures r.0.key == st.key && r.0.value == st.value && r.0.changed == st.changed
    ensures r.1.Fail? ==> r.0 == st
    ensures BaseEnum.ValidType(st.settingType) ==> BaseEnum.ValidType(r.0.settingType)
  {
    match s
    case NameIs(n) => (st.(name := n), Pass)
    case TypeIs(t) => WithType(st, t)
    case PriorityIs(p) => (st.(priority := p), Pass)
    case OptionsAre(o) => (st.(options := o), Pass)
    case FieldIs(f) => (st.(field := Some(f)), Pass)
  }

  /**
   * A configurator closure run on an item: its setter calls in order, stopping
   * at the first that throws (the calls before it keep their effect).
   */
  function Configured(st: ItemState, cb: seq<ItemSetter>): (r: (ItemState, Outcome))
    ensures r.0.key == st.key && r.0.value == st.value && r.0.changed == st.changed
    ensures BaseEnum.ValidType(st.settingType) ==> BaseEnum.ValidType(r.0.settingType)
    ensures (forall i | 0 <= i < |cb| :: !cb[i].TypeIs?) ==> r.1.Pass?
    decreases |cb|
  {
    if cb == [] then (st, Pass)
    else
      var (next, out) := ApplySetter(st, cb[0]);
      if out.Fail? then (next, out) else Configured(next, cb[1..])
  }

  // ------------------------------------------------------------------
  // Properties of the specification
  // ------------------------------------------------------------------

  /** A new item has type "text", which is valid, and a null value whatever the store holds. */
  lemma NewItem(rows: Rows)
    ensures Resolved(Declared(), rows) == Initial()
    ensures Initial().value == Null && !Initial().changed
    ensures BaseEnum.ValidType(Initial().settingType)
  {
    BaseEnum.TextIsValid();
  }

  /** Without a usable key, resolving reads nothing from the store. */
  lemma KeylessIgnoresStore(st: ItemState, rows1: Rows, rows2: Rows)
    requires !HasKey(st)
    ensures Resolved(st, rows1) == Resolved(st, rows2)
  {
  }

  /** Resolving twice against the same store gives what resolving once gives. */
  lemma ResolveIdempotent(st: ItemState, rows: Rows)
    ensures Resolved(Resolved(st, rows), rows) == Resolved(st, rows)
  {
  }

  /** A second assignment of the same value clears the flag the first one set. */
  lemma AssignOverwritesFlag(st: ItemState, v: Value)
    ensures Assigned(st, v).changed == (st.value != v)
    ensures !Assigned(Assigned(st, v), v).changed
    ensures Assigned(Assigned(st, v), v).value == v
  {
  }

  /**
   * Round trip: after `value(v)` with a usable key, a non-empty string that
   * differs from the cached value, the store holds `v` under the key and
   * resolving any item with that key, this one included, yields `v`.
   */
  lemma RoundTrip(st: ItemState, rows: Rows, v: string)
    requires HasKey(st) && !EmptyString(v) && st.value != Str(v)
    ensures ValueCall(st, Str(v), true, rows).1 == rows[st.key := v]
    ensures Resolved(ValueCall(st, Str(v), true, rows).0, ValueCall(st, Str(v), true, rows).1).value == Str(v)
    ensures forall other: ItemState | other.key == st.key ::
      Resolved(other, ValueCall(st, Str(v), true, rows).1).value == Str(v)
  {
    var a := Assigned(st, Str(v));
    assert a.changed;
  }

  /**
   * The dirty flag is overwritten, not accumulated: `value(v, false)` followed
   * by `value(v)` writes nothing to the store, so a row holding another value
   * keeps it and is what the item then resolves to.
   */
  lemma PendingValueNotSaved(st: ItemState, rows: Rows, v: string, w: string)
    requires HasKey(st) && st.key in rows && rows[st.key] == w && !EmptyString(w)
    ensures var pending := ValueCall(st, Str(v), false, rows);
      var again := ValueCall(pending.0, Str(v), true, pending.1);
      again.1 == rows && Resolved(again.0, again.1).value == Str(w)
  {
  }

  /** Saving twice leaves the store as saving once, and the second save always leaves a non-null item clean. */
  lemma {:induction false} SaveTwice(st: ItemState, rows: Rows)
    requires HasKey(st)
    ensures var once := Saved(st, rows);
      var twice := Saved(once.0, once.1);
      twice.1 == once.1 && twice.0.value == once.0.value &&
      (once.0.value.Str? ==> !twice.0.changed)
  {
    var once := Saved(st, rows);
    if st.changed && st.key !in rows {
      assert st.key in once.1;
    }
  }

  /** Once a field exists its class is fixed: changing the type afterwards does not change it. */
  lemma FieldKindIsMemoised(st: ItemState, rows: Rows, t: string)
    ensures var first := WithField(st, rows);
      var retyped := WithType(first.0, t).0;
      WithField(retyped, rows).1.kind == first.1.kind
  {
  }

  /** The field made for a valid type shows that type. */
  lemma FirstFieldShowsType(st: ItemState, rows: Rows)
    requires st.field.None? && BaseEnum.ValidType(st.settingType)
    ensures KindType(WithField(st, rows).1.kind) == st.settingType
  {
  }

  /** Running two configurators one after the other is running their concatenation, when the first succeeds. */
  lemma {:induction false} ConfiguredAppend(st: ItemState, a: seq<ItemSetter>, b: seq<ItemSetter>)
    requires Configured(st, a).1.Pass?
    ensures Configured(st, a + b) == Configured(Configured(st, a).0, b)
    decreases |a|
  {
    if a != [] {
      assert (a + b)[1..] == a[1..] + b;
      var (next, out) := ApplySetter(st, a[0]);
      ConfiguredAppend(next, a[1..], b);
    } else {
      assert a + b == b;
    }
  }

  // ------------------------------------------------------------------
  // The stateful item
  // ------------------------------------------------------------------

  class SettingItem {
    var key: string
    var name: string
    var settingType: string
    var priority: int
    var options: Options
    var field: Option<Field>
    var value: Value
    var changed: bool

    /** The item's fields as a snapshot. */
    function State(): ItemState
      reads this
    {
      ItemState(key, name, settingType, priority, options, field, value, changed)
    }

    /** `new SettingItem($container)`: the initialisers, then `value := getValue()`. */
    constructor(db: Database.SettingsTable)
      ensures State() == Initial()
    {
      key, name, settingType, priority := "", "", SettingType.TEXT, 0;
      options, field, value, changed := map[], None, Str(""), false;
      new;
      NewItem(db.rows);
      var v := GetValue(db, false);
    }

    function GetKey(): (k: string)
      reads this
      ensures k == State().key
    {
      key
    }

    function GetName(): (n: string)
      reads this
      ensures n == DisplayName(State())
    {
      if !EmptyString(name) then name else NameUsingKey(key)
    }

    method SetKey(k: string)
      modifies this
      ensures State() == old(State()).(key := k)
    {
      key := k;
    }

    method SetName(n: string)
      modifies this
      ensures State() == old(State()).(name := n)
    {
      name := n;
    }

    method SetType(t: string) returns (out: Outcome)
      modifies this
      ensures (State(), out) == WithType(old(State()), t)
    {
      BaseEnum.TypeDomain(t);
      var valid := t in {"boolean", "text", "number", "textarea", "code", "date", "datetime", "password"};
      if !valid {
        return Fail(SettingTypeNotValid(t));
      }
      settingType := t;
      out := Pass;
    }

    method SetPriority(p: int)
      modifies this
      ensures State() == old(State()).(priority := p)
    {
      priority := p;
    }

    method SetOptions(o: Options)
      modifies this
      ensures State() == old(State()).(options := o)
    {
      options := o;
    }

    method SetField(f: Field)
      modifies this
      ensures State() == old(State()).(field := Some(f))
    {
      field := Some(f);
    }

    /** `getValue($forceFromDatabase)`, step by step as the source does it. */
    method GetValue(db: Database.SettingsTable, forceFromDatabase: bool) returns (v: Value)
      modifies this
      ensures State() == Resolved(old(State()), db.rows)
      ensures v == value
    {
      var keyNotValid := EmptyString(key);
      var valueNotValid := Empty(value);
      if !keyNotValid || !valueNotValid || !forceFromDatabase {
        if !EmptyString(key) {
          if key in db.rows {
            value := Str(db.rows[key]);
          }
        }
      }
      if Empty(value) {
        if "default" in options && options["default"].Str? {
          value := options["default"];
        }
      }
      if Empty(value) {
        value := Null;
      }
      v := value;
    }

    /** `value($v, $save)`. */
    method SetValue(v: Value, save: bool, db: Database.SettingsTable)
      modifies this, db
      ensures (State(), db.rows) == ValueCall(old(State()), v, save, old(db.rows))
    {
      changed := value != v;
      value := v;
      if save {
        Save(db);
      }
    }

    /** `save()`. */
    method Save(db: Database.SettingsTable)
      modifies this, db
      ensures (State(), db.rows) == Saved(old(State()), old(db.rows))
    {
      if changed && !EmptyString(key) {
        if key in db.rows {
          if value.Str? {
            db.rows := db.rows[key := value.s];
            changed := false;
          }
        } else {
          if value.Null? {
            SetDefaultValue();
          }
          if value.Str? {
            db.rows := db.rows[key := value.s];
          }
        }
      }
    }

    /** `setDefaultValue()` (never asked to save by its one caller). */
    method SetDefaultValue()
      modifies this
      ensures State() == old(State()).(value := DefaultValue(old(options)))
    {
      value := if "default" in options && options["default"].Str? then options["default"] else Str("");
    }

    /** `getField()`. */
    method GetField(db: Database.SettingsTable) returns (f: Field)
      modifies this
      ensures (State(), f) == WithField(old(State()), db.rows)
    {
      if field.None? {
        field := Some(FieldByType(settingType, key, GetName()));
      }
      var caption := GetName();
      var v := GetValue(db, false);
      f := field.value.(name := caption, value := v);
      field := Some(f);
    }

    /** A configurator closure called on this item. */
    method Configure(cb: seq<ItemSetter>) returns (out: Outcome)
      modifies this
      ensures (State(), out) == Configured(old(State()), cb)
    {
      var i := 0;
      while i < |cb|
        invariant 0 <= i <= |cb|
        invariant Configured(State(), cb[i..]) == Configured(old(State()), cb)
      {
        assert cb[i..] == [cb[i]] + cb[i + 1..];
        match cb[i] {
          case NameIs(n) => SetName(n);
          case TypeIs(t) =>
            var o := SetType(t);
            if o.Fail? {
              return o;
            }
          case PriorityIs(p) => SetPriority(p);
          case OptionsAre(o) => SetOptions(o);
          case FieldIs(f) => SetField(f);
        }
        i := i + 1;
      }
      out := Pass;
    }
  }

  /** The round trip carried out on an item object: `value(v)` then `getValue()` returns `v`. */
  method ValueThenGetValue(item: SettingItem, db: Database.SettingsTable, v: string) returns (r: Value)
    requires HasKey(item.State()) && !EmptyString(v) && item.value != Str(v)
    modifies item, db
    ensures r == Str(v) && item.value == Str(v)
    ensures db.rows == old(db.rows)[item.key := v]
  {
    RoundTrip(item.State(), db.rows, v);
    item.SetValue(Str(v), true, db);
    r := item.GetValue(db, false);
  }
}
