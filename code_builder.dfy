/**
 * `CodeBuilder`: building a code one key and one value at a time, either
 * straight into the code text (`StringCodeBuilder`) or into a parameter
 * map (`KQCodeBuilder`). A key is pending between `key(k)` and the
 * `value(v)` that consumes it; a value with no pending key throws.
 */
module CodeBuilder {
  import opened Text
  import opened Results
  import opened CQEscape
  import opened Grammar
  import opened KQCodeUtils
  import LinkedMap
  import MapKQCode

  /** The value text a builder writes: `v.toString()`, or `""` for `null`. */
  function ValueText(v: Option<string>): string {
    match v
    case None => ""
    case Some(s) => s
  }

  /** `StringCodeBuilder`: the code text so far, and the pending key. */
  class StringCodeBuilder {
    const codeType: string
    const encode: bool
    var appender: string
    var key: Option<string>
    /** The pairs written so far, each with the text its value was given as. */
    ghost var written: seq<(string, string)>

    /** The text is the head, the type and every written pair escaped, each after a `,`. */
    ghost predicate Valid()
      reads this
    {
      appender == CqHead + codeType + Prefixed(Fields(written, true), CqSplit)
    }

    constructor(codeType: string, encode: bool)
      ensures Valid() && this.codeType == codeType && this.encode == encode
      ensures appender == CqHead + codeType && key == None && written == []
    {
      this.codeType := codeType;
      this.encode := encode;
      appender := CqHead + codeType;
      key := None;
      written := [];
      assert Fields([], true) == [];
    }

    /** `key(k)`: `k` becomes the pending key, replacing any other. */
    method Key(k: string)
      modifies this
      ensures key == Some(k) && appender == old(appender) && written == old(written)
    {
      key := Some(k);
    }

    /**
     * `value(v)`: with a pending key `k`, appends `,k=` and the escaped
     * value (nothing for `null`) whatever `encode` says, and clears the
     * key; with none, throws and changes nothing.
     */
    method Value(v: Option<string>) returns (r: Outcome)
      requires Valid()
      modifies this
      ensures Valid()
      ensures old(key).None? ==> (r == Fail(NullPointer) && appender == old(appender) && key == None
        && written == old(written))
      ensures old(key).Some? ==> (r == Pass && key == None
        && written == old(written) + [(old(key).value, ValueText(v))]
        && appender == old(appender) + CqSplit + Field((old(key).value, ValueText(v)), true))
    {
      if key.None? {
        return Fail(NullPointer);
      }
      var k := key.value;
      var text := appender + CqSplit + k + CqKv;
      if v.Some? {
        text := text + EncodeParams(v.value);
      } else {
        EncodeParamsEmpty();
      }
      FieldAppend(appender, k, ValueText(v), text);
      WrittenStep(appender, codeType, written, (k, ValueText(v)), text);
      appender := text;
      written := written + [(k, ValueText(v))];
      key := None;
      r := Pass;
    }

    /** `emptyValue()`: `value(null)`. */
    method EmptyValue() returns (r: Outcome)
      requires Valid()
      modifies this
      ensures Valid()
      ensures old(key).None? ==> (r == Fail(NullPointer) && appender == old(appender) && key == None
        && written == old(written))
      ensures old(key).Some? ==> (r == Pass && key == None
        && written == old(written) + [(old(key).value, "")]
        && appender == old(appender) + CqSplit + old(key).value + CqKv)
    {
      EncodeParamsEmpty();
      r := Value(None);
    }

    /** `build()`: the text so far closed by `]`, which is `toCq` of the written pairs. */
    method Build() returns (s: string)
      requires Valid()
      ensures s == appender + CqEnd && s == ToCq(codeType, true, written)
    {
      ToCqPrefixed(codeType, true, written);
      s := appender + CqEnd;
    }
  }

  /** Appending `,`, the key, `=` and the escaped value appends the field. */
  lemma FieldAppend(a: string, k: string, x: string, text: string)
    requires text == a + CqSplit + k + CqKv + EncodeParams(x)
    ensures text == a + CqSplit + Field((k, x), true)
  {
  }

  /** A field appended to the text of the written pairs is the text of one more pair. */
  lemma WrittenStep(a: string, codeType: string, w: seq<(string, string)>, kv: (string, string), text: string)
    requires a == CqHead + codeType + Prefixed(Fields(w, true), CqSplit)
    requires text == a + CqSplit + Field(kv, true)
    ensures text == CqHead + codeType + Prefixed(Fields(w + [kv], true), CqSplit)
  {
    PrefixedFieldsSnoc(w, kv, true);
  }

  /** Escaping the empty text gives the empty text. */
  lemma EncodeParamsEmpty()
    ensures EncodeParams("") == ""
  {
  }

  /** `KQCodeBuilder`: the parameter map so far, and the pending key. */
  class KQCodeBuilder {
    const codeType: string
    var params: LinkedMap.Entries
    var key: Option<string>

    ghost predicate Valid()
      reads this
    {
      LinkedMap.DistinctKeys(params)
    }

    constructor(codeType: string)
      ensures Valid() && this.codeType == codeType && params == [] && key == None
    {
      this.codeType := codeType;
      params := [];
      key := None;
    }

    /** `key(k)`: `k` becomes the pending key, replacing any other. */
    method Key(k: string)
      modifies this
      ensures key == Some(k) && params == old(params)
    {
      key := Some(k);
    }

    /**
     * `value(v)`: with a pending key `k`, stores the value text (`""` for
     * `null`) under `k`, overwriting an earlier one, and clears the key;
     * with none, throws and changes nothing.
     */
    method Value(v: Option<string>) returns (r: Outcome)
      requires Valid()
      modifies this
      ensures Valid()
      ensures old(key).None? ==> r == Fail(NullPointer) && params == old(params) && key == None
      ensures old(key).Some? ==> (r == Pass && key == None
        && params == LinkedMap.Put(old(params), old(key).value, ValueText(v)))
      ensures old(key).Some? ==> forall x :: (LinkedMap.Get(params, x)
        == if x == old(key).value then Some(ValueText(v)) else LinkedMap.Get(old(params), x))
    {
      if key.None? {
        return Fail(NullPointer);
      }
      var k := key.value;
      LinkedMap.DistinctPut(params, k, ValueText(v));
      forall x ensures LinkedMap.Get(LinkedMap.Put(params, k, ValueText(v)), x)
        == if x == k then Some(ValueText(v)) else LinkedMap.Get(params, x)
      {
        LinkedMap.GetPut(params, k, ValueText(v), x);
      }
      params := LinkedMap.Put(params, k, ValueText(v));
      key := None;
      r := Pass;
    }

    /** `emptyValue()`: `value("")`. */
    method EmptyValue() returns (r: Outcome)
      requires Valid()
      modifies this
      ensures Valid()
      ensures old(key).None? ==> r == Fail(NullPointer) && params == old(params) && key == None
      ensures old(key).Some? ==> r == Pass && key == None && params == LinkedMap.Put(old(params), old(key).value, "")
    {
      r := Value(Some(""));
    }

    /**
     * `build()`: an immutable code over a copy of the map, which later
     * calls on the builder cannot change.
     */
    method Build() returns (c: MapKQCode.MapCode)
      requires Valid()
      ensures c == MapKQCode.MapCode(codeType, params) && LinkedMap.DistinctKeys(c.params)
    {
      c := MapKQCode.MapCode(codeType, params);
    }
  }

  /** A code built, then the builder written again: the code keeps the values it was built with. */
  method BuildThenWrite(b: KQCodeBuilder, k: string, v: string) returns (c: MapKQCode.MapCode)
    requires b.Valid()
    modifies b
    ensures b.Valid() && c == MapKQCode.MapCode(b.codeType, old(b.params))
    ensures b.params == LinkedMap.Put(old(b.params), k, v)
  {
    c := b.Build();
    b.Key(k);
    var r := b.Value(Some(v));
  }

  /**
   * The text a string builder builds from pairs with distinct keys that
   * survive splitting parses back into the code a map builder builds from
   * the same pairs.
   */
  lemma BuildersAgree(codeType: string, written: seq<(string, string)>)
    requires MapKQCode.Renderable(MapKQCode.MapCode(codeType, written))
    ensures MapKQCode.ByCode(ToCq(codeType, true, written), true) == Ok(MapKQCode.MapCode(codeType, written))
  {
    MapKQCode.RoundTrip(MapKQCode.MapCode(codeType, written));
  }
}
