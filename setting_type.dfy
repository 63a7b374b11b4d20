/**
 * SettingType: the closed enumeration of field kinds a setting may have.
 * It holds only class constants; reflection reports them in declaration
 * order as (name, value) pairs.
 */
module SettingType {
  import opened Php

  const BOOLEAN: string := "boolean"
  const TEXT: string := "text"
  const NUMBER: string := "number"
  const TEXTAREA: string := "textarea"
  const CODE: string := "code"
  const DATE: string := "date"
  const DATETIME: string := "datetime"
  const PASSWORD: string := "password"

  /** The class constants, in declaration order. */
  function Constants(): (r: seq<(string, string)>)
    ensures |r| == 8
  {
    [("BOOLEAN", BOOLEAN), ("TEXT", TEXT), ("NUMBER", NUMBER), ("TEXTAREA", TEXTAREA),
     ("CODE", CODE), ("DATE", DATE), ("DATETIME", DATETIME), ("PASSWORD", PASSWORD)]
  }

  /** The value domain is exactly the eight field kinds. */
  lemma ValueDomain()
    ensures (set i | 0 <= i < |Constants()| :: Constants()[i].1)
         == {"boolean", "text", "number", "textarea", "code", "date", "datetime", "password"}
  {
    var c := Constants();
    var vs := set i | 0 <= i < |c| :: c[i].1;
    assert c[0].1 in vs && c[1].1 in vs && c[2].1 in vs && c[3].1 in vs;
    assert c[4].1 in vs && c[5].1 in vs && c[6].1 in vs && c[7].1 in vs;
  }

  /** The name domain is exactly the eight upper-case constant names. */
  lemma NameDomain()
    ensures (set i | 0 <= i < |Constants()| :: Constants()[i].0)
         == {"BOOLEAN", "TEXT", "NUMBER", "TEXTAREA", "CODE", "DATE", "DATETIME", "PASSWORD"}
  {
    var c := Constants();
    var ns := set i | 0 <= i < |c| :: c[i].0;
    assert c[0].0 in ns && c[1].0 in ns && c[2].0 in ns && c[3].0 in ns;
    assert c[4].0 in ns && c[5].0 in ns && c[6].0 in ns && c[7].0 in ns;
  }

  /** No two constants share a name or a value. */
  lemma ConstantsDistinct()
    ensures forall i, j | 0 <= i < j < |Constants()| ::
      Constants()[i].0 != Constants()[j].0 && Constants()[i].1 != Constants()[j].1
  {
  }

  /** Each constant's value is the lower-case form of its name. */
  lemma ValueIsLowerName()
    ensures forall i | 0 <= i < |Constants()| :: Lower(Constants()[i].0) == Constants()[i].1
  {
    LowerOf("BOOLEAN", BOOLEAN);
    LowerOf("TEXT", TEXT);
    LowerOf("NUMBER", NUMBER);
    LowerOf("TEXTAREA", TEXTAREA);
    LowerOf("CODE", CODE);
    LowerOf("DATE", DATE);
    LowerOf("DATETIME", DATETIME);
    LowerOf("PASSWORD", PASSWORD);
  }

  lemma LowerOf(name: string, value: string)
    requires |name| == |value|
    requires forall j | 0 <= j < |name| :: LowerChar(name[j]) == value[j]
    ensures Lower(name) == value
  {
  }
}
