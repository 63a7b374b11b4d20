/**
 * BaseEnum: membership tests over the constants of an enumeration class,
 * read once per class through reflection and kept in a static cache.
 */
module BaseEnum {
  import opened Php
  import SettingType

  /** The classes that extend BaseEnum; `get_called_class()` yields one of them. */
  datatype EnumClass = SettingTypeClass

  /** A class's constants as reflection returns them: name to value. */
  type Constants = map<string, string>

  /** The (name, value) pairs as a map; names are distinct. */
  function ToMap(s: seq<(string, string)>): (m: Constants)
    requires forall i, j | 0 <= i < j < |s| :: s[i].0 != s[j].0
    ensures m.Keys == set i | 0 <= i < |s| :: s[i].0
    ensures forall i | 0 <= i < |s| :: m[s[i].0] == s[i].1
    ensures m.Values == set i | 0 <= i < |s| :: s[i].1
  {
    map i | 0 <= i < |s| :: s[i].0 := s[i].1
  }

  /** `(new ReflectionClass($class))->getConstants()`. */
  function Reflect(c: EnumClass): Constants
  {
    match c
    case SettingTypeClass =>
      SettingType.ConstantsDistinct();
      ToMap(SettingType.Constants())
  }

  /** `isValidName($name, $strict)`: an exact constant name, or one equal to it after lower-casing both. */
  predicate NameValid(consts: Constants, name: string, strict: bool)
  {
    if strict then name in consts
    else exists n | n in consts :: Lower(n) == Lower(name)
  }

  /** `isValidValue($value)`: identical to one of the constant values. */
  predicate ValueValid(consts: Constants, value: string)
  {
    value in consts.Values
  }

  /** The type domain of a setting: `SettingType::isValidValue($type)`. */
  predicate ValidType(t: string)
  {
    ValueValid(Reflect(SettingTypeClass), t)
  }

  /** The static `$constCacheArray`: null until first use, then one entry per class asked for. */
  class ConstantsCache {
    var table: Option<map<EnumClass, Constants>>

    /** Every cached entry is what reflection gives for its class. */
    ghost predicate Valid()
      reads this
    {
      table.Some? ==> forall c | c in table.value :: table.value[c] == Reflect(c)
    }

    constructor()
      ensures Valid() && table == None
    {
      table := None;
    }

    /** `getConstants()` for the called class `c`. */
    method GetConstants(c: EnumClass) returns (r: Constants)
      requires Valid()
      modifies this
      ensures Valid()
      ensures r == Reflect(c)
      ensures table.Some? && c in table.value
      ensures old(table).Some? && c in old(table).value ==> table == old(table)
      ensures old(table).Some? ==> table == Some(old(table).value[c := Reflect(c)])
      ensures old(table).None? ==> table == Some(map[c := Reflect(c)])
    {
      // `== null` is PHP's loose comparison, under which an empty array is null too.
      if table.None? || table.value == map[] {
        table := Some(map[]);
      }
      if c !in table.value {
        table := Some(table.value[c := Reflect(c)]);
      }
      r := table.value[c];
      assert old(table).Some? && c in old(table).value ==>
        old(table).value[c := Reflect(c)] == old(table).value;
    }

    /** `isValidName($name, $strict)`. */
    method IsValidName(c: EnumClass, name: string, strict: bool) returns (b: bool)
      requires Valid()
      modifies this
      ensures Valid()
      ensures b == NameValid(Reflect(c), name, strict)
    {
      var constants := GetConstants(c);
      if strict {
        return name in constants;
      }
      var keys := set n | n in constants :: Lower(n);
      b := Lower(name) in keys;
    }

    /** `isValidValue($value)` with the default strict comparison. */
    method IsValidValue(c: EnumClass, value: string) returns (b: bool)
      requires Valid()
      modifies this
      ensures Valid()
      ensures b == ValueValid(Reflect(c), value)
    {
      var constants := GetConstants(c);
      b := value in constants.Values;
    }
  }

  /** A setting type is valid exactly when it is one of the eight field kinds. */
  lemma TypeDomain(t: string)
    ensures ValidType(t) <==>
      t in {"boolean", "text", "number", "textarea", "code", "date", "datetime", "password"}
  {
    DomainIsValues();
  }

  lemma DomainIsValues()
    ensures Reflect(SettingTypeClass).Values
         == {"boolean", "text", "number", "textarea", "code", "date", "datetime", "password"}
  {
    ReflectedValues();
    SettingType.ValueDomain();
  }

  lemma ReflectedNames()
    ensures Reflect(SettingTypeClass).Keys
         == {"BOOLEAN", "TEXT", "NUMBER", "TEXTAREA", "CODE", "DATE", "DATETIME", "PASSWORD"}
  {
    SettingType.ConstantsDistinct();
    assert Reflect(SettingTypeClass) == ToMap(SettingType.Constants());
    SettingType.NameDomain();
  }

  lemma ReflectedValues()
    ensures Reflect(SettingTypeClass).Values
         == set i | 0 <= i < |SettingType.Constants()| :: SettingType.Constants()[i].1
  {
    SettingType.ConstantsDistinct();
    assert Reflect(SettingTypeClass) == ToMap(SettingType.Constants());
  }

  /** The default type of a new setting, "text", is valid. */
  lemma TextIsValid()
    ensures ValidType(SettingType.TEXT)
  {
    TypeDomain(SettingType.TEXT);
  }

  /** The strict name test accepts exactly the eight constant names. */
  lemma StrictNames(n: string)
    ensures NameValid(Reflect(SettingTypeClass), n, true) <==>
      n in {"BOOLEAN", "TEXT", "NUMBER", "TEXTAREA", "CODE", "DATE", "DATETIME", "PASSWORD"}
  {
    ReflectedNames();
  }

  /** Because every value is its lower-cased name, the loose name test is the value test on the lower-cased name. */
  lemma LooseNameIsLowerValue(x: string)
    ensures NameValid(Reflect(SettingTypeClass), x, false) <==> ValidType(Lower(x))
  {
    var consts := Reflect(SettingTypeClass);
    var c := SettingType.Constants();
    SettingType.ValueIsLowerName();
    if NameValid(consts, x, false) {
      var n :| n in consts && Lower(n) == Lower(x);
      var i :| 0 <= i < |c| && c[i].0 == n;
      assert consts[n] == c[i].1 == Lower(x);
    }
    if ValidType(Lower(x)) {
      var i :| 0 <= i < |c| && c[i].1 == Lower(x);
      assert c[i].0 in consts && Lower(c[i].0) == Lower(x);
    }
  }
}
