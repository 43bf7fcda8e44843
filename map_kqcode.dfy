/**
 * `MapKQCode`, the eager codec: a code parsed once into its type and an
 * insertion-ordered parameter map, and `MutableMapKQCode`, the variant whose
 * map is changed in place.
 */
module MapKQCode {
  import opened Text
  import opened Results
  import opened CQEscape
  import opened LinkedMap
  import opened Grammar
  import opened KQCodeUtils

  /** An immutable `MapKQCode`: the type and the parameters in insertion order. */
  datatype MapCode = MapCode(codeType: string, params: Entries)

  /**
   * `splitCode`: the trimmed code must be framed by `[CQ:` and `]`; its
   * inner text is split at every `,` with the spaces beside it. The first
   * field is the type.
   */
  function SplitCode(code: string): (r: Result<seq<string>>)
    ensures r.Err? <==> !Framed(Trim(code))
    ensures r.Err? ==> r.error == IllegalArgument
    ensures r.Ok? ==> |r.value| >= 1
  {
    var t := Trim(code);
    if !Framed(t) then Err(IllegalArgument)
    else
      FramedEnds(t);
      Ok(SplitFields(t[4..|t| - 1]))
  }

  /**
   * One field `key=value` cut at its first `=` (`split(Regex("="), 2)`);
   * reading the second piece of a field without `=` fails.
   */
  function ParseField(f: string, decode: bool): (r: Result<(string, string)>)
    ensures r.Ok? <==> '=' in f
    ensures r.Err? ==> r.error == IndexOutOfBounds
    ensures r.Ok? ==> |r.value.0| < |f| && f[|r.value.0|] == '=' && f[..|r.value.0|] == r.value.0 && '=' !in r.value.0
  {
    var sp := SplitFirst(f, '=');
    FindCharFirst(f, '=', 0);
    if |sp| < 2 then Err(IndexOutOfBounds)
    else
      var i := FindChar(f, '=', 0);
      assert sp[0] == f[..i];
      assert forall j :: 0 <= j < i ==> f[..i][j] == f[j];
      Ok((sp[0], if decode then DecodeParams(sp[1]) else sp[1]))
  }

  /** Every field parsed in order; the first field without `=` fails the whole parse. */
  function ParseFields(fs: seq<string>, decode: bool): (r: Result<Entries>)
    ensures r.Ok? <==> forall k :: 0 <= k < |fs| ==> '=' in fs[k]
    ensures r.Err? ==> r.error == IndexOutOfBounds
    ensures r.Ok? ==> |r.value| == |fs| && forall k :: 0 <= k < |fs| ==> ParseField(fs[k], decode) == Ok(r.value[k])
  {
    if forall k :: 0 <= k < |fs| ==> '=' in fs[k] then
      Ok(seq(|fs|, k requires 0 <= k < |fs| && '=' in fs[k] => ParseField(fs[k], decode).value))
    else Err(IndexOutOfBounds)
  }

  /**
   * `byCode(code, decode)`: the fields after the type become the parameters
   * (values decoded when `decode` is set), a later duplicate key overwriting
   * an earlier one; a code with no fields after the type has none.
   */
  function ByCode(code: string, decode: bool): (r: Result<MapCode>)
    ensures r.Ok? ==> DistinctKeys(r.value.params)
  {
    match SplitCode(code)
    case Err(e) => Err(e)
    case Ok(split) =>
      if |split| > 1 then
        match ParseFields(split[1..], decode)
        case Err(e) => Err(e)
        case Ok(ps) =>
          DistinctFromPairs(ps);
          Ok(MapCode(split[0], FromPairs(ps)))
      else Ok(MapCode(split[0], []))
  }

  /** `toString`: the code rendered by `toCq(type, map)`, values escaped. */
  function Render(c: MapCode): string {
    ToCq(c.codeType, true, c.params)
  }

  /** `equals` between two immutable codes: same type and the same parameter map, in any order. */
  predicate Equals(a: MapCode, b: MapCode) {
    a.codeType == b.codeType && AsMap(a.params) == AsMap(b.params)
  }

  /** `get(key)` of the delegated map. */
  function Get(c: MapCode, key: string): Option<string> {
    LinkedMap.Get(c.params, key)
  }

  /** `getNoDecode(key)`: the stored value escaped again, as it would appear in the rendered code. */
  function GetNoDecode(c: MapCode, key: string): (r: Option<string>)
    ensures r.Some? <==> Get(c, key).Some?
    ensures r.Some? ==> DecodeParams(r.value) == Get(c, key).value
  {
    match Get(c, key)
    case None => None
    case Some(v) =>
      DecodeEncodeParams(v);
      Some(EncodeParams(v))
  }

  /** `byPair(type, *pairs)`: `mapOf(*pairs)`, the last value given for a key winning. */
  function ByPairs(codeType: string, pairs: Entries): (r: MapCode)
    ensures r.codeType == codeType && DistinctKeys(r.params)
    ensures forall k :: Get(r, k) == LastValue(pairs, k)
  {
    DistinctFromPairs(pairs);
    forall k ensures LinkedMap.Get(FromPairs(pairs), k) == LastValue(pairs, k) {
      GetFromPairs(pairs, k);
    }
    MapCode(codeType, FromPairs(pairs))
  }

  /** `byParamString(type, *params)`: each `key=value` text cut at its first `=`, values kept raw. */
  function ByParamStrings(codeType: string, params: seq<string>): (r: Result<MapCode>)
    ensures r.Ok? <==> forall k :: 0 <= k < |params| ==> '=' in params[k]
    ensures r.Err? ==> r.error == IndexOutOfBounds
    ensures r.Ok? ==> r.value == ByPairs(codeType, ParseFields(params, false).value)
  {
    match ParseFields(params, false)
    case Err(e) => Err(e)
    case Ok(ps) => Ok(ByPairs(codeType, ps))
  }

  /** Two codes over distinct keys are equal exactly when their types agree and every key looks up the same. */
  lemma EqualsByLookup(a: MapCode, b: MapCode)
    requires DistinctKeys(a.params) && DistinctKeys(b.params)
    ensures Equals(a, b) <==> a.codeType == b.codeType && SameGets(a.params, b.params)
  {
    if Equals(a, b) {
      SameMapLookups(a.params, b.params);
    }
    if a.codeType == b.codeType && SameGets(a.params, b.params) {
      SameLookups(a.params, b.params);
    }
  }

  /** A type that survives splitting: no `,`, and no space before the first separator. */
  predicate GoodType(t: string) {
    ',' !in t && (t == [] || t[|t| - 1] != ' ')
  }

  /** A key that survives splitting: no `,` or `=`, and no space after its separator. */
  predicate GoodKey(k: string) {
    ',' !in k && '=' !in k && (k == [] || k[0] != ' ')
  }

  /** A value that survives splitting: no `,`, and no space before the next separator. */
  predicate GoodValue(v: string) {
    ',' !in v && (v == [] || v[|v| - 1] != ' ')
  }

  predicate Renderable(c: MapCode) {
    && GoodType(c.codeType) && DistinctKeys(c.params)
    && forall i :: 0 <= i < |c.params| ==> GoodKey(c.params[i].0) && GoodValue(c.params[i].1)
  }

  /** A rendered field parses back into its pair. */
  lemma FieldParses(kv: (string, string))
    requires '=' !in kv.0
    ensures ParseField(Field(kv, true), true) == Ok(kv)
  {
    var e := EncodeParams(kv.1);
    assert Field(kv, true) == kv.0 + "=" + e;
    FieldSplit(kv.0, e);
    DecodeEncodeParams(kv.1);
  }

  /** A rendered field has no `,` and no space at its ends. */
  lemma FieldClean(kv: (string, string))
    requires GoodKey(kv.0) && GoodValue(kv.1)
    ensures var f := Field(kv, true);
      && ',' !in f && f != [] && f[0] != ' ' && f[|f| - 1] != ' '
  {
    var e := EncodeParams(kv.1);
    var f := Field(kv, true);
    assert f == kv.0 + "=" + e;
    EncodeParamsKeeps(kv.1);
    assert f[|kv.0|] == '=';
    if e != [] {
      assert f[|f| - 1] == e[|e| - 1];
    }
  }

  /** The framed text `[CQ:` + `inner` + `]` trims to itself and splits as `inner`. */
  lemma SplitFramed(inner: string)
    ensures var code := CqHead + inner + CqEnd;
      Framed(code) && SplitCode(code) == Ok(SplitFields(inner))
  {
    var code := CqHead + inner + CqEnd;
    assert code[..4] == CqHead && code[|code| - 1..] == CqEnd;
    TrimFramed(code);
    assert code[4..|code| - 1] == inner;
  }

  /** The fields of a rendered code parse back into its pairs. */
  lemma FieldsParse(ps: Entries)
    requires forall i :: 0 <= i < |ps| ==> GoodKey(ps[i].0) && GoodValue(ps[i].1)
    ensures ParseFields(Fields(ps, true), true) == Ok(ps)
  {
    var fs := Fields(ps, true);
    forall k | 0 <= k < |fs| ensures ParseField(fs[k], true) == Ok(ps[k]) {
      FieldParses(ps[k]);
    }
    var r := ParseFields(fs, true);
    assert r.Ok? && |r.value| == |ps|;
    assert forall k :: 0 <= k < |ps| ==> r.value[k] == ps[k];
    assert r.value == ps;
  }

  /** The type and the rendered fields hold nothing the splitting would cut or trim. */
  lemma PartsClean(c: MapCode)
    requires Renderable(c)
    ensures CleanFields([c.codeType] + Fields(c.params, true))
  {
    var fs := Fields(c.params, true);
    var parts := [c.codeType] + fs;
    forall k | 0 <= k < |fs|
      ensures ',' !in fs[k] && fs[k] != [] && fs[k][0] != ' ' && fs[k][|fs[k]| - 1] != ' '
    {
      FieldClean(c.params[k]);
    }
    assert forall k :: 1 <= k < |parts| ==> parts[k] == fs[k - 1];
  }

  /** A rendered code with parameters is its type and fields joined by `,`, framed. */
  lemma RenderJoin(c: MapCode)
    requires c.params != []
    ensures Render(c) == CqHead + Join([c.codeType] + Fields(c.params, true), ",") + CqEnd
  {
    JoinFramed(CqHead, c.codeType, Fields(c.params, true), ",", CqEnd);
  }

  /** A rendered code with parameters splits into its type and its fields. */
  lemma RenderSplits(c: MapCode)
    requires Renderable(c) && c.params != []
    ensures SplitCode(Render(c)) == Ok([c.codeType] + Fields(c.params, true))
  {
    var parts := [c.codeType] + Fields(c.params, true);
    RenderJoin(c);
    PartsClean(c);
    SplitFramed(Join(parts, ","));
    SplitFieldsJoin(parts);
  }

  /**
   * Round trip: parsing a rendered code gives the code back, when the type,
   * keys and values hold nothing the splitting would cut or trim.
   */
  lemma RoundTrip(c: MapCode)
    requires Renderable(c)
    ensures ByCode(Render(c), true) == Ok(c)
  {
    var t := c.codeType;
    if c.params == [] {
      assert Render(c) == CqHead + t + CqEnd;
      SplitFramed(t);
      assert CleanFields([t]);
      SplitFieldsJoin([t]);
    } else {
      var fs := Fields(c.params, true);
      RenderSplits(c);
      assert ([t] + fs)[1..] == fs;
      FieldsParse(c.params);
      FromDistinct(c.params);
    }
  }

  /**
   * `MutableMapKQCode`: the type, reassignable through its `var` property,
   * and a parameter map changed in place by `put` and `remove`.
   */
  class MutableMapCode {
    var codeType: string
    var params: Entries

    ghost predicate Valid()
      reads this
    {
      DistinctKeys(params)
    }

    constructor(codeType: string, params: Entries)
      requires DistinctKeys(params)
      ensures Valid() && this.codeType == codeType && this.params == params
    {
      this.codeType := codeType;
      this.params := params;
    }

    /** `put(k, v)`: returns the previous value; a new key goes last, a present one keeps its place. */
    method Put(k: string, v: string) returns (prev: Option<string>)
      requires Valid()
      modifies this
      ensures Valid() && params == LinkedMap.Put(old(params), k, v) && codeType == old(codeType)
      ensures prev == LinkedMap.Get(old(params), k)
      ensures forall x :: LinkedMap.Get(params, x) == if x == k then Some(v) else LinkedMap.Get(old(params), x)
    {
      prev := LinkedMap.Get(params, k);
      DistinctPut(params, k, v);
      forall x ensures LinkedMap.Get(LinkedMap.Put(params, k, v), x) == if x == k then Some(v) else LinkedMap.Get(params, x) {
        GetPut(params, k, v, x);
      }
      params := LinkedMap.Put(params, k, v);
    }

    /** `remove(k)`: returns the removed value; the other entries keep their order. */
    method Remove(k: string) returns (prev: Option<string>)
      requires Valid()
      modifies this
      ensures Valid() && params == LinkedMap.Remove(old(params), k) && codeType == old(codeType)
      ensures prev == LinkedMap.Get(old(params), k)
      ensures forall x :: LinkedMap.Get(params, x) == if x == k then None else LinkedMap.Get(old(params), x)
    {
      prev := LinkedMap.Get(params, k);
      DistinctRemove(params, k);
      forall x ensures LinkedMap.Get(LinkedMap.Remove(params, k), x) == if x == k then None else LinkedMap.Get(params, x) {
        GetRemove(params, k, x);
      }
      params := LinkedMap.Remove(params, k);
    }

    /** `type = t`: only the type changes; the next `toString` shows it. */
    method SetType(t: string)
      requires Valid()
      modifies this
      ensures Valid() && codeType == t && params == old(params)
      ensures ToString() == ToCq(t, true, old(params))
    {
      codeType := t;
    }

    /** `toString`, rendered afresh from the current type and map on every call. */
    function ToString(): string
      reads this
    {
      ToCq(codeType, true, params)
    }

    /** `immutable()`: a snapshot `MapKQCode` over a copy of the current map. */
    method Immutable() returns (c: MapCode)
      requires Valid()
      ensures c == MapCode(codeType, params) && Render(c) == ToString()
    {
      c := MapCode(codeType, params);
    }
  }

  /** `mutable()`: a `MutableMapKQCode` over a fresh copy of the map. */
  method Mutable(c: MapCode) returns (m: MutableMapCode)
    requires DistinctKeys(c.params)
    ensures fresh(m) && m.Valid() && m.codeType == c.codeType && m.params == c.params
  {
    m := new MutableMapCode(c.codeType, c.params);
  }

  /** `mutableByCode(code, decode)`: `byCode`, then a mutable code over the result. */
  method MutableByCode(code: string, decode: bool) returns (r: Result<MutableMapCode>)
    ensures r.Ok? <==> ByCode(code, decode).Ok?
    ensures r.Err? ==> r.error == ByCode(code, decode).error
    ensures r.Ok? ==> fresh(r.value) && r.value.Valid()
    ensures r.Ok? ==> r.value.codeType == ByCode(code, decode).value.codeType
    ensures r.Ok? ==> r.value.params == ByCode(code, decode).value.params
  {
    var c := ByCode(code, decode);
    if c.Err? {
      return Err(c.error);
    }
    var m := Mutable(c.value);
    r := Ok(m);
  }

  /**
   * A mutable copy is independent of its source: putting into it changes
   * the copy only, and a snapshot taken before keeps the old contents.
   */
  method EditCopy(c: MapCode, k: string, v: string) returns (m: MutableMapCode, snap: MapCode)
    requires DistinctKeys(c.params)
    ensures fresh(m) && m.Valid()
    ensures snap == c && m.params == LinkedMap.Put(c.params, k, v)
    ensures LinkedMap.Get(m.params, k) == Some(v)
  {
    m := Mutable(c);
    snap := m.Immutable();
    var _ := m.Put(k, v);
  }
}
