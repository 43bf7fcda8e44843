/**
 * `FastKQCode`, the lazy codec: the token text is kept as it is, its type,
 * parameter count and emptiness are read off once, and every lookup scans
 * the text again, the last hit being cached.
 */
module FastKQCode {
  import opened Text
  import opened Results
  import opened CQEscape
  import opened Grammar
  import opened Scan
  import LinkedMap
  import opened KQCodeUtils
  import opened KQIterators
  import opened MapKQCode

  /**
   * The type read at construction: from after `[CQ:` up to the first `,`,
   * or up to the closing `]` when there is none.
   */
  function TypeOf(code: string): (r: string)
    requires Framed(code)
    ensures 4 + |r| < |code| && code[4..4 + |r|] == r && ',' !in r
    ensures 4 + |r| == |code| - 1 || code[4 + |r|] == ','
  {
    FramedEnds(code);
    FindCharFirst(code, ',', 4);
    var f := FindChar(code, ',', 4);
    var e := if f < 0 then |code| - 1 else f;
    assert forall i :: 0 <= i < e - 4 ==> code[4..e][i] == code[4 + i];
    code[4..e]
  }

  /**
   * `getParam` without its cache: the raw slice after the first `",key="`
   * from the type on, up to the next `,` or the closing `]`.
   */
  function Lookup(code: string, key: string): (r: Option<string>)
    ensures r.Some? ==> ',' !in r.value
  {
    ParamAtSpec(code, key, 4, |code| - 1);
    ParamAt(code, key, 4, |code| - 1)
  }

  /** `decodeParamsOrNull`: a found value decoded, a missing one still missing. */
  function DecodeOrNull(o: Option<string>): Option<string> {
    match o
    case None => None
    case Some(v) => Some(DecodeParams(v))
  }

  /** `isEmpty()`: set when the text holds a `,`, that is when the code HAS parameters. */
  predicate Empty(code: string) {
    ',' in code
  }

  /** `containsKey(key)`: `",key="` occurs, unless `Empty`. */
  predicate ContainsKey(code: string, key: string) {
    !Empty(code) && Contains(code, "," + key + "=")
  }

  /** `containsValue(value)`: the escaped value follows a `=` and ends at a `,` or the `]`, unless `Empty`. */
  predicate ContainsValue(code: string, value: string) {
    var e := EncodeParams(value);
    !Empty(code) && (Contains(code, "=" + e + ",") || Contains(code, "=" + e + "]"))
  }

  /** `keys.contains(element)`: `"element="` occurs, unless `Empty`. */
  predicate KeysContain(code: string, element: string) {
    !Empty(code) && Contains(code, element + "=")
  }

  /** `values.contains(element)`: `"=" + escaped element` occurs, unless `Empty`. */
  predicate ValuesContain(code: string, element: string) {
    !Empty(code) && Contains(code, "=" + EncodeParams(element))
  }

  /** `entries.contains(element)`: `"key=" + escaped value` occurs, unless `Empty`. */
  predicate EntriesContain(code: string, key: string, value: string) {
    !Empty(code) && Contains(code, key + "=" + EncodeParams(value))
  }

  /**
   * `containsKey` as written never holds: `Empty` guards the search for a
   * text without `,`, and a pattern that starts with `,` cannot occur in
   * such a text.
   */
  lemma ContainsKeyNever(code: string, key: string)
    ensures !ContainsKey(code, key)
  {
    if !Empty(code) {
      AbsentCharNoOccurrence(code, "," + key + "=", 0);
      ContainsIff(code, "," + key + "=");
    }
  }

  /** `containsKey` with the emptiness test the other way round, as its comment intends. */
  predicate ContainsKeyIntended(code: string, key: string) {
    Empty(code) && Contains(code, "," + key + "=")
  }

  /** The intended `containsKey` holds exactly when `get(key)` finds a value. */
  lemma ContainsKeyIntendedFinds(code: string, key: string)
    requires Framed(code)
    ensures ContainsKeyIntended(code, key) <==> Lookup(code, key).Some?
  {
    var pf := "," + key + "=";
    FramedEnds(code);
    assert code[..4] == CqHead;
    forall i | 0 <= i < 4 ensures !Occurs(code, pf, i) {
      assert code[i] == CqHead[i];
      NotOccursAt(code, pf, i);
    }
    IndexOfSkip(code, pf, 0, 4);
    IndexOfFound(code, pf, 4);
    ParamAtSpec(code, key, 4, |code| - 1);
    var phi := IndexOf(code, pf, 4);
    if phi >= 0 {
      assert code[phi + |pf| - 1] == pf[|pf| - 1] == '=';
      assert code[phi] == pf[0] == ',';
    }
    ContainsIff(code, pf);
  }

  /**
   * `containsValue` as written can only hold for a code with no `,` (no
   * parameters), and then only for the text before the closing `]`.
   */
  lemma ContainsValueShape(code: string, value: string)
    ensures var e := EncodeParams(value);
      ContainsValue(code, value) <==> !Empty(code) && Contains(code, "=" + e + "]")
  {
    var e := EncodeParams(value);
    var p := "=" + e + ",";
    if !Empty(code) {
      assert p[|p| - 1] == ',';
      AbsentCharNoOccurrence(code, p, |p| - 1);
      ContainsIff(code, p);
    }
  }

  /** A rendered code is its head, its type, its fields each after a `,`, and `]`. */
  lemma RenderTail(c: MapCode)
    ensures Render(c) == CqHead + c.codeType + Prefixed(Fields(c.params, true), ",") + CqEnd
  {
    ToCqPrefixed(c.codeType, true, c.params);
  }

  /** Where the type and the rest sit in a text framed by `[CQ:` and `]`. */
  lemma Layout(s: string, t: string, p: string)
    requires s == CqHead + t + p + CqEnd
    ensures |s| == 5 + |t| + |p| && Framed(s)
    ensures s[4..4 + |t|] == t && s[4 + |t|..] == p + CqEnd
    ensures p != [] ==> s[4 + |t|] == p[0]
  {
    assert s[..4] == CqHead;
    assert s[|s| - 1..] == CqEnd;
    assert s[4..4 + |t|] == t;
    assert s[4 + |t|..] == p + CqEnd;
  }

  /** Keys without `,` or `=`, values without `,`. */
  predicate CommaFree(ps: LinkedMap.Entries) {
    forall i :: 0 <= i < |ps| ==> ',' !in ps[i].0 && '=' !in ps[i].0 && ',' !in ps[i].1
  }

  /** At a field `,k0=e0` at `a`, the pattern `,key=` occurs exactly when `key` is `k0`. */
  lemma FieldMatch(s: string, a: int, k0: string, e0: string, key: string)
    requires 0 <= a && a + |k0| + 2 + |e0| <= |s|
    requires s[a..a + |k0| + 2 + |e0|] == "," + k0 + "=" + e0
    requires '=' !in k0 && '=' !in key
    ensures Occurs(s, "," + key + "=", a) <==> key == k0
  {
    var f := "," + k0 + "=" + e0;
    var pf := "," + key + "=";
    assert forall j :: 0 <= j < |f| ==> s[a + j] == f[j];
    if key == k0 {
      assert forall j :: 0 <= j < |pf| ==> pf[j] == f[j];
    } else if Occurs(s, pf, a) {
      forall j | 0 <= j < |key| ensures s[a + 1 + j] == key[j] {
        assert pf[1 + j] == key[j];
      }
      forall j | 0 <= j < |k0| ensures s[a + 1 + j] == k0[j] {
        assert f[1 + j] == k0[j];
      }
      assert pf[1 + |key|] == '=' && f[1 + |k0|] == '=';
      assert s[a + 1..a + 1 + |key|] == key && s[a + 1 + |key|] == '=';
      assert s[a + 1..a + 1 + |k0|] == k0 && s[a + 1 + |k0|] == '=';
      FindCharAfter(s, a + 1, key, '=');
      FindCharAfter(s, a + 1, k0, '=');
    }
  }

  /**
   * A field `,key=v` at `i`, followed by a `,` or by the last character,
   * with no `,` in `v`.
   */
  predicate FieldAt(s: string, i: int, key: string, v: string) {
    var n := i + |key| + 2 + |v|;
    && 0 <= i && n < |s| && s[i..n] == "," + key + "=" + v && ',' !in v
    && (s[n] == ',' || n == |s| - 1)
  }

  /** At a field of `key`, the search for `,key=` stops there. */
  lemma LookupHit(s: string, a: int, key: string, e0: string)
    requires FieldAt(s, a, key, e0) && '=' !in key
    ensures IndexOf(s, "," + key + "=", a) == a
  {
    FieldMatch(s, a, key, e0, key);
    IndexOfIs(s, "," + key + "=", a, a);
  }

  /** When the search for `,key=` from `from` stops at a field of `key`, the lookup gives that field's value. */
  lemma FoundValue(s: string, key: string, from: int, phi: int, v: string)
    requires FieldAt(s, phi, key, v) && IndexOf(s, "," + key + "=", from) == phi
    ensures ParamAt(s, key, from, |s| - 1) == Some(v)
  {
    var pf := "," + key + "=";
    var n := phi + |key| + 2 + |v|;
    var st := phi + |pf|;
    assert forall i :: st <= i < n ==> s[i] == s[phi..n][i - phi] == v[i - st];
    FindCharFirst(s, ',', st);
    assert s[st..n] == v;
  }

  /** Past a field `,k0=e0` at `a` of another key, the search for `,key=` goes on after the field. */
  lemma LookupMiss(s: string, a: int, n: int, k0: string, e0: string, key: string)
    requires 0 <= a && n == a + |k0| + 2 + |e0| < |s|
    requires s[a..n] == "," + k0 + "=" + e0
    requires '=' !in k0 && '=' !in key && k0 != key && ',' !in k0 && ',' !in e0
    ensures IndexOf(s, "," + key + "=", a) == IndexOf(s, "," + key + "=", n)
  {
    var pf := "," + key + "=";
    var f := "," + k0 + "=" + e0;
    FieldMatch(s, a, k0, e0, key);
    forall i | a <= i < a + |f| ensures !Occurs(s, pf, i) {
      if i > a {
        assert s[i] == f[i - a];
        assert f[i - a] in f[1..];
        NotOccursAt(s, pf, i);
      }
    }
    IndexOfSkip(s, pf, a, a + |f|);
  }

  /** The pairs with their values escaped, as `toCq` writes them. */
  function Encoded(ps: LinkedMap.Entries): (r: LinkedMap.Entries)
    ensures |r| == |ps|
    ensures forall i :: 0 <= i < |ps| ==> r[i] == (ps[i].0, EncodeParams(ps[i].1))
  {
    seq(|ps|, i requires 0 <= i < |ps| => (ps[i].0, EncodeParams(ps[i].1)))
  }

  /** Rendering with escaping is rendering the escaped pairs as they are. */
  lemma FieldsEncoded(ps: LinkedMap.Entries)
    ensures Fields(ps, true) == Fields(Encoded(ps), false)
  {
  }

  /** Escaping keeps the keys, and a value escaped is found where the value was. */
  lemma {:induction false} GetEncoded(c: MapCode, key: string)
    ensures LinkedMap.Get(Encoded(c.params), key) == GetNoDecode(c, key)
    decreases |c.params|
  {
    var ps := c.params;
    if ps != [] && ps[0].0 != key {
      GetEncoded(MapCode(c.codeType, ps[1..]), key);
      assert Encoded(ps)[1..] == Encoded(ps[1..]);
    }
  }

  /** Escaping keeps every value free of `,`. */
  lemma EncodedCommaFree(ps: LinkedMap.Entries)
    requires CommaFree(ps)
    ensures CommaFree(Encoded(ps))
  {
    forall i | 0 <= i < |ps| ensures ',' !in EncodeParams(ps[i].1) {
      EncodeParamsKeeps(ps[i].1);
    }
  }

  /** The `k`-th field read off the text at `a`, followed by a `,` or by the closing `]`. */
  lemma FieldStep(s: string, a: int, es: LinkedMap.Entries, k: int) returns (n: int)
    requires 0 <= k < |es| && 0 <= a <= |s| && s[a..] == Prefixed(Fields(es, false)[k..], ",") + CqEnd
    ensures n == a + |es[k].0| + 2 + |es[k].1|
    ensures n < |s| && s[a..n] == "," + es[k].0 + "=" + es[k].1
    ensures s[n..] == Prefixed(Fields(es, false)[k + 1..], ",") + CqEnd
    ensures s[n] == ',' || n == |s| - 1
  {
    var fs := Fields(es, false);
    var f := fs[k];
    assert f == es[k].0 + "=" + es[k].1;
    PrefixedStep(s, a, fs[k..], ",", CqEnd);
    assert fs[k..][1..] == fs[k + 1..];
    n := a + 1 + |f|;
    assert s[n] == s[n..][0];
    if k + 1 < |es| {
      assert fs[k + 1..] != [];
    }
  }

  /** Nothing is found when only the closing `]` is left. */
  lemma LookupEnd(s: string, a: int, key: string)
    requires 0 <= a <= |s| && s[a..] == CqEnd
    ensures IndexOf(s, "," + key + "=", a) < 0
  {
    IndexOfFound(s, "," + key + "=", a);
  }

  /** At the field of `key`, the search stops on it, and that field holds the expected value. */
  lemma HitStep(s: string, a: int, es: LinkedMap.Entries, k: int, key: string)
    requires 0 <= k < |es| && 0 <= a <= |s| && s[a..] == Prefixed(Fields(es, false)[k..], ",") + CqEnd
    requires CommaFree(es) && es[k].0 == key
    ensures LinkedMap.Get(es[k..], key) == Some(es[k].1)
    ensures IndexOf(s, "," + key + "=", a) == a && FieldAt(s, a, key, es[k].1)
  {
    var n := FieldStep(s, a, es, k);
    assert es[k..][0] == es[k];
    LookupHit(s, a, key, es[k].1);
  }

  /** Past the field of another key, the search moves on to the next field. */
  lemma MissStep(s: string, a: int, es: LinkedMap.Entries, k: int, key: string) returns (n: int)
    requires 0 <= k < |es| && 0 <= a <= |s| && s[a..] == Prefixed(Fields(es, false)[k..], ",") + CqEnd
    requires CommaFree(es) && '=' !in key && es[k].0 != key
    ensures n == a + |es[k].0| + 2 + |es[k].1|
    ensures n <= |s| && s[n..] == Prefixed(Fields(es, false)[k + 1..], ",") + CqEnd
    ensures IndexOf(s, "," + key + "=", a) == IndexOf(s, "," + key + "=", n)
  {
    n := FieldStep(s, a, es, k);
    LookupMiss(s, a, n, es[k].0, es[k].1, key);
  }

  /**
   * Searching the fields from the `k`-th on for `,key=` stops at the field
   * of the first entry of that key, or finds nothing when there is none.
   */
  lemma {:induction false} LookupTail(s: string, a: int, es: LinkedMap.Entries, k: int, key: string)
    requires 0 <= k <= |es| && 0 <= a <= |s| && s[a..] == Prefixed(Fields(es, false)[k..], ",") + CqEnd
    requires CommaFree(es) && '=' !in key
    ensures var g := LinkedMap.Get(es[k..], key); var phi := IndexOf(s, "," + key + "=", a);
      (g.None? ==> phi < 0) && (g.Some? ==> FieldAt(s, phi, key, g.value))
    decreases |es| - k
  {
    if k == |es| {
      assert es[k..] == [];
      assert Fields(es, false)[k..] == [];
      LookupEnd(s, a, key);
    } else if es[k].0 == key {
      HitStep(s, a, es, k, key);
    } else {
      var n := MissStep(s, a, es, k, key);
      LinkedMap.GetSkip(es, k, key);
      LookupTail(s, n, es, k + 1, key);
      var pf := "," + key + "=";
      var g := LinkedMap.Get(es[k..], key);
      assert g == LinkedMap.Get(es[k + 1..], key);
      assert IndexOf(s, pf, a) == IndexOf(s, pf, n);
      if g.Some? {
        assert FieldAt(s, IndexOf(s, pf, n), key, g.value);
      }
    }
  }

  /** No `,key=` starts inside a type without `,` written at 4. */
  lemma TypeSkipped(s: string, t: string, key: string)
    requires 4 + |t| <= |s| && s[4..4 + |t|] == t && ',' !in t
    ensures IndexOf(s, "," + key + "=", 4) == IndexOf(s, "," + key + "=", 4 + |t|)
  {
    var pf := "," + key + "=";
    forall i | 4 <= i < 4 + |t| ensures !Occurs(s, pf, i) {
      assert s[i] == s[4..4 + |t|][i - 4];
      NotOccursAt(s, pf, i);
    }
    IndexOfSkip(s, pf, 4, 4 + |t|);
  }

  /** A rendered code: its head, its type, and its fields each after a `,`, up to the closing `]`. */
  lemma RenderHead(c: MapCode) returns (s: string)
    ensures s == Render(c) && 4 + |c.codeType| < |s| && Framed(s)
    ensures s[4..4 + |c.codeType|] == c.codeType
    ensures 4 + |c.codeType| == |s| - 1 || s[4 + |c.codeType|] == ','
  {
    RenderTail(c);
    s := Render(c);
    var fs := Fields(c.params, true);
    var p := Prefixed(fs, ",");
    Layout(s, c.codeType, p);
    if fs != [] {
      assert p[0] == ',';
    }
  }

  /**
   * On a rendered code, the lazy lookup agrees with the map of the eager
   * codec: `getNoDecode` gives the escaped value of the key, and `get` the
   * value that `MapKQCode.byCode` of the same text stores, for any key
   * without `=`.
   */
  lemma GetAgrees(c: MapCode, key: string)
    requires Renderable(c) && '=' !in key
    ensures Lookup(Render(c), key) == GetNoDecode(c, key)
    ensures ByCode(Render(c), true).Ok?
      && DecodeOrNull(Lookup(Render(c), key)) == MapKQCode.Get(ByCode(Render(c), true).value, key)
  {
    LookupEncoded(c, key);
    RoundTrip(c);
  }

  /** The lazy lookup on a rendered code finds the escaped value stored under the key. */
  lemma LookupEncoded(c: MapCode, key: string)
    requires Renderable(c) && '=' !in key
    ensures Lookup(Render(c), key) == GetNoDecode(c, key)
  {
    var a, es := FieldsLayout(c);
    var s := RenderHead(c);
    TypeSkipped(s, c.codeType, key);
    LookupFields(s, a, es, key);
    GetEncoded(c, key);
  }

  /**
   * In a text whose fields start at `a`, with no `,key=` between the type
   * and `a`, the lookup finds the value of the first entry of the key.
   */
  lemma LookupFields(s: string, a: int, es: LinkedMap.Entries, key: string)
    requires 0 <= a <= |s| && s[a..] == Prefixed(Fields(es, false)[0..], ",") + CqEnd
    requires CommaFree(es) && es[0..] == es && '=' !in key
    requires IndexOf(s, "," + key + "=", 4) == IndexOf(s, "," + key + "=", a)
    ensures Lookup(s, key) == LinkedMap.Get(es, key)
  {
    LookupTail(s, a, es, 0, key);
    var g := LinkedMap.Get(es, key);
    if g.Some? {
      FoundValue(s, key, 4, IndexOf(s, "," + key + "=", a), g.value);
    }
  }

  /** Past its head and type, a rendered code is its escaped fields, each after a `,`, and the closing `]`. */
  lemma FieldsLayout(c: MapCode) returns (a: int, es: LinkedMap.Entries)
    requires Renderable(c)
    ensures a == |CqHead| + |c.codeType| && es == Encoded(c.params) && CommaFree(es) && es[0..] == es
    ensures 0 <= a <= |Render(c)| && Render(c)[a..] == Prefixed(Fields(es, false)[0..], ",") + CqEnd
  {
    RenderTail(c);
    Layout(Render(c), c.codeType, Prefixed(Fields(c.params, true), ","));
    FieldsEncoded(c.params);
    EncodedCommaFree(c.params);
    a := |CqHead| + |c.codeType|;
    es := Encoded(c.params);
    assert Fields(es, false)[0..] == Fields(es, false);
  }

  /** The type read from a framed text is the text from 4 up to the first `,` or the closing `]`. */
  lemma TypeOfIs(s: string, t: string)
    requires Framed(s) && 4 + |t| < |s| && s[4..4 + |t|] == t && ',' !in t
    requires 4 + |t| == |s| - 1 || s[4 + |t|] == ','
    ensures TypeOf(s) == t
  {
    FramedEnds(s);
    if s[4 + |t|] == ',' {
      FindCharAfter(s, 4, t, ',');
    } else {
      assert forall i :: 4 <= i < |s| - 1 ==> s[i] == t[i - 4];
      assert forall i :: 4 <= i < |s| ==> s[i] != ',';
    }
  }

  /** The type read from a rendered code is the code's type. */
  lemma TypeOfRender(c: MapCode)
    requires ',' !in c.codeType
    ensures Framed(Render(c)) && TypeOf(Render(c)) == c.codeType
  {
    var s := RenderHead(c);
    TypeOfIs(s, c.codeType);
  }

  /**
   * On a token whose only `]` is the closing one, the lazy lookup is
   * `KQCodeUtils.getParam` of the token for its first code.
   */
  lemma LookupIsGetParam(code: string, key: string)
    requires Framed(code) && forall i :: 0 <= i < |code| - 1 ==> code[i] != ']'
    ensures var th := TerminatedHeads(code, CqHeadOf(""), 0);
      |th| > 0 && th[0] == (0, |code| - 1) && Lookup(code, key) == ParamAt(code, key, th[0].0, th[0].1)
  {
    var head := CqHeadOf("");
    var pf := "," + key + "=";
    FramedEnds(code);
    assert head == CqHead && code[..4] == CqHead;
    assert forall j :: 0 <= j < |head| ==> code[j] == head[j];
    IndexOfIs(code, head, 0, 0);
    FindCharAfter(code, 0, code[..|code| - 1], ']');
    assert TerminatedHeads(code, head, 0)[0] == (0, |code| - 1);
    forall i | 0 <= i < 4 ensures !Occurs(code, pf, i) {
      assert code[i] == CqHead[i];
      NotOccursAt(code, pf, i);
    }
    IndexOfSkip(code, pf, 0, 4);
    ParamAtSameStart(code, key, 0, 4, |code| - 1);
  }

  /** Lookups whose searches for `",key="` land alike give the same value. */
  lemma ParamAtSameStart(text: string, key: string, a: int, b: int, end: int)
    requires end < |text| && IndexOf(text, "," + key + "=", a) == IndexOf(text, "," + key + "=", b)
    ensures ParamAt(text, key, a, end) == ParamAt(text, key, b, end)
  {
  }

  /** A code with one field: its type and the value of its one key are read back. */
  lemma OneField(t: string, k: string, v: string) returns (s: string)
    requires ',' !in t && ',' !in k && '=' !in k && ',' !in v
    ensures s == CqHead + t + "," + k + "=" + v + CqEnd
    ensures Framed(s) && TypeOf(s) == t && Lookup(s, k) == Some(v)
  {
    s := CqHead + t + "," + k + "=" + v + CqEnd;
    var f := "," + k + "=" + v;
    var a := 4 + |t|;
    assert s == CqHead + t + f + CqEnd;
    Layout(s, t, f);
    TypeOfIs(s, t);
    assert s[a..a + |f|] == f by {
      assert s[a..] == f + CqEnd;
      assert s[a..a + |f|] == s[a..][..|f|];
    }
    assert FieldAt(s, a, k, v);
    LookupHit(s, a, k, v);
    TypeSkipped(s, t, k);
    FoundValue(s, k, 4, a, v);
  }

  /** The lazy code over one token text, with its one-entry lookup cache. */
  class FastCode {
    const code: string
    const codeType: string
    const size: nat
    const empty: bool
    const startIndex: int
    const endIndex: int
    var paramBuffer: Option<(string, string)>

    /** The values read at construction, and a cache that holds only what a fresh lookup finds. */
    ghost predicate Valid()
      reads this
    {
      && Framed(code) && startIndex == |CqHead| && endIndex == |code| - 1
      && codeType == TypeOf(code) && size == CountChar(code, '=') && empty == Empty(code)
      && (paramBuffer.Some? ==> Lookup(code, paramBuffer.value.0) == Some(paramBuffer.value.1))
    }

    constructor(code: string)
      requires Framed(code)
      ensures Valid() && this.code == code && paramBuffer == None
    {
      FramedEnds(code);
      this.code := code;
      startIndex := |CqHead|;
      endIndex := |code| - 1;
      var f := FindChar(code, ',', |CqHead|);
      if f < 0 {
        f := |code| - 1;
      }
      codeType := code[|CqHead|..f];
      empty := ',' in code;
      size := CountChar(code, '=');
      paramBuffer := None;
    }

    /** `byCode(code)`: the trimmed text, which must be framed by `[CQ:` and `]`. */
    static method ByCode(code: string) returns (r: Result<FastCode>)
      ensures r.Ok? <==> Framed(Trim(code))
      ensures r.Err? ==> r.error == IllegalArgument
      ensures r.Ok? ==> fresh(r.value) && r.value.Valid() && r.value.code == Trim(code)
      ensures r.Ok? ==> r.value.paramBuffer == None
    {
      var t := Trim(code);
      if !Framed(t) {
        return Err(IllegalArgument);
      }
      var f := new FastCode(t);
      r := Ok(f);
    }

    /**
     * `getParam(key)` (and `getNoDecode`): the cached value when the cache
     * holds this key, otherwise a fresh scan, whose hit replaces the cache.
     */
    method GetParam(key: string) returns (r: Option<string>)
      requires Valid()
      modifies this
      ensures Valid() && r == Lookup(code, key)
      ensures paramBuffer == if r.Some? then Some((key, r.value)) else old(paramBuffer)
    {
      if paramBuffer.Some? && paramBuffer.value.0 == key {
        return Some(paramBuffer.value.1);
      }
      var paramFind := "," + key + "=";
      var phi := IndexOf(code, paramFind, startIndex);
      if phi < 0 {
        return None;
      }
      var start := phi + |paramFind|;
      var pei := FindChar(code, ',', start);
      if pei < 0 || pei > endIndex {
        pei := endIndex;
      }
      if start > |code| - 1 || start > pei {
        return None;
      }
      var subParam := code[start..pei];
      paramBuffer := Some((key, subParam));
      return Some(subParam);
    }

    /** `get(key)`: the value found by `getParam`, decoded. */
    method Get(key: string) returns (r: Option<string>)
      requires Valid()
      modifies this
      ensures Valid() && r == DecodeOrNull(Lookup(code, key))
      ensures paramBuffer == if r.Some? then Some((key, Lookup(code, key).value)) else old(paramBuffer)
    {
      var p := GetParam(key);
      r := DecodeOrNull(p);
    }

    /** `keys.containsAll(elements)`: false for a code with parameters, even for no elements. */
    method KeysContainAll(elements: seq<string>) returns (b: bool)
      ensures b <==> !Empty(code) && forall i :: 0 <= i < |elements| ==> KeysContain(code, elements[i])
    {
      if ',' in code {
        return false;
      }
      for i := 0 to |elements|
        invariant forall j :: 0 <= j < i ==> KeysContain(code, elements[j])
      {
        if !KeysContain(code, elements[i]) {
          return false;
        }
      }
      return true;
    }

    /** `values.containsAll(elements)`: false for a code with parameters, even for no elements. */
    method ValuesContainAll(elements: seq<string>) returns (b: bool)
      ensures b <==> !Empty(code) && forall i :: 0 <= i < |elements| ==> ValuesContain(code, elements[i])
    {
      if ',' in code {
        return false;
      }
      for i := 0 to |elements|
        invariant forall j :: 0 <= j < i ==> ValuesContain(code, elements[j])
      {
        if !ValuesContain(code, elements[i]) {
          return false;
        }
      }
      return true;
    }

    /** `entries.containsAll(elements)`: false for a code with parameters, even for no elements. */
    method EntriesContainAll(elements: seq<(string, string)>) returns (b: bool)
      ensures b <==> !Empty(code) && forall i :: 0 <= i < |elements| ==> EntriesContain(code, elements[i].0, elements[i].1)
    {
      if ',' in code {
        return false;
      }
      for i := 0 to |elements|
        invariant forall j :: 0 <= j < i ==> EntriesContain(code, elements[j].0, elements[j].1)
      {
        if !EntriesContain(code, elements[i].0, elements[i].1) {
          return false;
        }
      }
      return true;
    }

    /** `keys.iterator()`: a key iterator over the text, one key per `,`. */
    method Keys() returns (it: KeyIterator)
      requires Valid()
      ensures fresh(it) && it.Valid() && it.code == code && it.Ahead() == Positions(code, ',', 0)
    {
      it := new KeyIterator(code);
    }

    /** `values.iterator()`: a value iterator over the text, one value per `=`. */
    method Values() returns (it: ValueIterator)
      requires Valid()
      ensures fresh(it) && it.Valid() && it.code == code && it.Ahead() == Positions(code, '=', 0)
    {
      it := new ValueIterator(code);
    }

    /** `entries.iterator()`: an entry iterator over the text, one entry per `,`. */
    method Entries() returns (it: PairIterator)
      requires Valid()
      ensures fresh(it) && it.Valid() && it.code == code && it.Ahead() == Positions(code, ',', 0)
    {
      it := new PairIterator(code);
    }

    /** `mutable()`: the text parsed again by `MapKQCode.mutableByCode`, values decoded. */
    method Mutable() returns (r: Result<MutableMapCode>)
      ensures r.Ok? <==> MapKQCode.ByCode(code, true).Ok?
      ensures r.Ok? ==> fresh(r.value) && r.value.Valid()
      ensures r.Ok? ==> r.value.codeType == MapKQCode.ByCode(code, true).value.codeType
      ensures r.Ok? ==> r.value.params == MapKQCode.ByCode(code, true).value.params
    {
      r := MutableByCode(code, true);
    }
  }

  /** `size` counts every `=` of the text: as many as the value iterator yields. */
  lemma SizeIsValueCount(f: FastCode)
    requires f.Valid()
    ensures f.size == |Positions(f.code, '=', 0)|
  {
    IterationCounts(f.code);
  }
}
