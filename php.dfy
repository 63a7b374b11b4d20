/**
 * The few PHP value semantics the settings objects depend on: a setting
 * value is either null or a string, `empty()` treats "" and "0" as empty,
 * `??` replaces null, and `strtolower` folds ASCII letters.
 */
module Php {

  /** A setting value: PHP null or a string. */
  datatype Value = Null | Str(s: string)

  datatype Option<+T> = None | Some(value: T)

  /** `empty($s)` on a string: true for "" and for "0". */
  predicate EmptyString(s: string)
  {
    s == "" || s == "0"
  }

  /** `is_null($v) || empty($v)` on a setting value. */
  predicate Empty(v: Value)
  {
    v.Null? || EmptyString(v.s)
  }

  /** `$v ?? ''`: null becomes the empty string, anything else is kept. */
  function Coalesce(v: Value): (r: Value)
    ensures r.Str?
    ensures v.Str? ==> r == v
    ensures v.Null? ==> r == Str("")
  {
    match v
    case Null => Str("")
    case Str(_) => v
  }

  function LowerChar(c: char): char
  {
    if 'A' <= c <= 'Z' then (c as int + 32) as char else c
  }

  function UpperChar(c: char): char
  {
    if 'a' <= c <= 'z' then (c as int - 32) as char else c
  }

  /** `strtolower`: folds the ASCII letters A-Z and leaves every other character alone. */
  function Lower(s: string): (r: string)
    ensures |r| == |s|
    ensures forall i | 0 <= i < |s| :: r[i] == LowerChar(s[i])
  {
    seq(|s|, i requires 0 <= i < |s| => LowerChar(s[i]))
  }
}
