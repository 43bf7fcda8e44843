/**
 * `KQCode`: the factories `of` and `ofType`, and `EmptyKQCode`, the code
 * with a type and no parameters.
 */
module KQCode {
  import opened Text
  import opened Results
  import opened Grammar
  import opened KQCodeUtils
  import LinkedMap
  import MapKQCode
  import FastKQCode

  /** `EmptyKQCode(type)`: a data class, so two are equal exactly when their types are. */
  datatype EmptyCode = EmptyCode(codeType: string)

  /** `toString()`: the head, the type and the closing `]`. */
  function ToString(e: EmptyCode): string {
    CqHead + e.codeType + CqEnd
  }

  /** `length`: the length of the text. */
  function Length(e: EmptyCode): (r: nat)
    ensures r == |ToString(e)| && r == |e.codeType| + 5
  {
    |ToString(e)|
  }

  /** `get(index)`: a character of the text, failing outside it. */
  function CharAt(e: EmptyCode, index: int): (r: Result<char>)
    ensures r.Ok? <==> 0 <= index < Length(e)
    ensures r.Ok? ==> r.value == ToString(e)[index]
    ensures r.Err? ==> r.error == StringIndexOutOfBounds
  {
    if 0 <= index < |ToString(e)| then Ok(ToString(e)[index]) else Err(StringIndexOutOfBounds)
  }

  /** `size`: no parameters. */
  function Size(e: EmptyCode): nat {
    0
  }

  /** `isEmpty()`: always. */
  predicate IsEmpty(e: EmptyCode) {
    true
  }

  /** `get(key)` and `getNoDecode(key)`: nothing, for any key. */
  function Get(e: EmptyCode, key: string): Option<string> {
    None
  }

  /** `containsKey` and `containsValue`: false, for any argument. */
  predicate ContainsKey(e: EmptyCode, key: string) {
    false
  }

  predicate ContainsValue(e: EmptyCode, value: string) {
    false
  }

  /** `keys`, `values` and `entries`: empty. */
  function Entries(e: EmptyCode): LinkedMap.Entries {
    []
  }

  /** The empty code's text is `toCq` with no parameters, which the eager codec renders alike. */
  lemma EmptyIsToCq(e: EmptyCode)
    ensures ToString(e) == ToCq(e.codeType, true, [])
    ensures ToString(e) == MapKQCode.Render(MapKQCode.MapCode(e.codeType, []))
  {
    assert ToCq(e.codeType, true, []) == ToCqType(e.codeType);
  }

  /**
   * The empty code answers every query as the eager codec does for its
   * text: the type, no parameters and so no value for any key, whenever
   * the type holds no `,`.
   */
  lemma EmptyAgreesWithMap(e: EmptyCode, key: string)
    requires ',' !in e.codeType
    ensures MapKQCode.ByCode(ToString(e), true) == Ok(MapKQCode.MapCode(e.codeType, Entries(e)))
    ensures MapKQCode.Get(MapKQCode.ByCode(ToString(e), true).value, key) == Get(e, key)
    ensures |MapKQCode.ByCode(ToString(e), true).value.params| == Size(e)
  {
    MapKQCode.SplitFramed(e.codeType);
    var c := e.codeType;
    FindCharFirst(c, ',', 0);
    assert SplitFields(c) == [c];
  }

  /**
   * The empty code also agrees with the lazy codec over its text: that
   * reads the same type and finds no key, as long as the type holds no `,`.
   */
  lemma EmptyAgreesWithFast(e: EmptyCode, key: string)
    requires ',' !in e.codeType
    ensures Framed(ToString(e)) && FastKQCode.TypeOf(ToString(e)) == e.codeType
    ensures FastKQCode.Lookup(ToString(e), key) == Get(e, key)
  {
    var s := ToString(e);
    assert s == CqHead + e.codeType + "" + CqEnd;
    FastKQCode.Layout(s, e.codeType, "");
    FastKQCode.TypeOfIs(s, e.codeType);
    assert ',' !in s by {
      assert forall i :: 4 <= i < |s| - 1 ==> s[i] == e.codeType[i - 4];
    }
    AbsentCharNoOccurrence(s, "," + key + "=", 0);
    IndexOfFound(s, "," + key + "=", 4);
  }

  /**
   * `mutable()`: the text parsed again by `MapKQCode.mutableByCode`; for a
   * type without `,` a mutable code of that type with no parameters.
   */
  method Mutable(e: EmptyCode) returns (r: Result<MapKQCode.MutableMapCode>)
    ensures r.Ok? <==> MapKQCode.ByCode(ToString(e), true).Ok?
    ensures ',' !in e.codeType ==> (r.Ok? && fresh(r.value) && r.value.Valid()
      && r.value.codeType == e.codeType && r.value.params == [])
  {
    if ',' !in e.codeType {
      EmptyAgreesWithMap(e, "");
    }
    r := MapKQCode.MutableByCode(ToString(e), true);
  }

  /** `ofType(type)`: an empty code of that type. */
  function OfType(codeType: string): (r: EmptyCode)
    ensures ToString(r) == CqHead + codeType + CqEnd && Size(r) == 0
  {
    EmptyCode(codeType)
  }

  /** `of(code)`: the lazy codec over the trimmed text, which must be framed. */
  method Of(code: string) returns (r: Result<FastKQCode.FastCode>)
    ensures r.Ok? <==> Framed(Trim(code))
    ensures r.Err? ==> r.error == IllegalArgument
    ensures r.Ok? ==> fresh(r.value) && r.value.Valid() && r.value.code == Trim(code)
  {
    r := FastKQCode.FastCode.ByCode(code);
  }
}
