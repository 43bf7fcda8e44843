/**
 * `KQCodeUtils`: rendering codes (`toCq`), and the message-body operations
 * instantiated with the CQ head. The walks themselves are in `Scan` and
 * `Removal`, shared with the mirai copies.
 */
module KQCodeUtils {
  import opened Text
  import opened Results
  import opened CQEscape
  import opened Scan
  import opened Removal
  import opened Grammar

  /** `key=value` for one parameter, the value escaped when `encode` is set. */
  function Field(kv: (string, string), encode: bool): string {
    kv.0 + CqKv + (if encode then EncodeParams(kv.1) else kv.1)
  }

  function Fields(pairs: seq<(string, string)>, encode: bool): (r: seq<string>)
    ensures |r| == |pairs| && forall k :: 0 <= k < |r| ==> r[k] == Field(pairs[k], encode)
  {
    seq(|pairs|, k requires 0 <= k < |pairs| => Field(pairs[k], encode))
  }

  /** `toCq(type)`: a code without parameters. */
  function ToCqType(codeType: string): string {
    CqHead + codeType + CqEnd
  }

  /**
   * `toCq(type, encode, pairs)`, and `toCq(type, encode, map)` over the
   * entries of the map in its iteration order.
   */
  function ToCq(codeType: string, encode: bool, pairs: seq<(string, string)>): string {
    if pairs == [] then ToCqType(codeType)
    else CqHead + codeType + CqSplit + Join(Fields(pairs, encode), CqSplit) + CqEnd
  }

  /** A rendered code is its head, its type, its fields each after a `,`, and `]`. */
  lemma ToCqPrefixed(codeType: string, encode: bool, pairs: seq<(string, string)>)
    ensures ToCq(codeType, encode, pairs) == CqHead + codeType + Prefixed(Fields(pairs, encode), CqSplit) + CqEnd
  {
    if pairs != [] {
      JoinPrefixed(Fields(pairs, encode), CqSplit);
    } else {
      assert Fields(pairs, encode) == [];
    }
  }

  /** One more pair adds one more field after a `,`. */
  lemma PrefixedFieldsSnoc(pairs: seq<(string, string)>, kv: (string, string), encode: bool)
    ensures Prefixed(Fields(pairs + [kv], encode), CqSplit)
      == Prefixed(Fields(pairs, encode), CqSplit) + CqSplit + Field(kv, encode)
  {
    assert Fields(pairs + [kv], encode) == Fields(pairs, encode) + [Field(kv, encode)];
    PrefixedSnoc(Fields(pairs, encode), Field(kv, encode), CqSplit);
  }

  /** Every parameter text holds a `=`. */
  predicate AllHaveKv(params: seq<string>) {
    forall k :: 0 <= k < |params| ==> '=' in params[k]
  }

  /** Each parameter text cut at its first `=` (`split(Regex("="), 2)`). */
  function ParamPairs(params: seq<string>): (r: seq<(string, string)>)
    requires AllHaveKv(params)
    ensures |r| == |params|
  {
    seq(|params|, k requires 0 <= k < |params| =>
      var sp := SplitFirst(params[k], '='); (sp[0], sp[1]))
  }

  /**
   * `toCq(type, encode, params)` over texts `key=value`: with `encode` each
   * is cut at its first `=` (reading the missing second half of a text
   * without `=` fails) and rendered as a pair; without it they are joined
   * as they are.
   */
  function ToCqParams(codeType: string, encode: bool, params: seq<string>): Result<string> {
    if params == [] then Ok(ToCqType(codeType))
    else if encode then
      if AllHaveKv(params) then Ok(ToCq(codeType, true, ParamPairs(params))) else Err(IndexOutOfBounds)
    else Ok(CqHead + codeType + CqSplit + Join(params, CqSplit) + CqEnd)
  }

  /** A character in neither any part nor the separator is not in their join. */
  lemma {:induction false} JoinAvoids(parts: seq<string>, sep: string, c: char)
    requires c !in sep && forall k :: 0 <= k < |parts| ==> c !in parts[k]
    ensures c !in Join(parts, sep)
    decreases |parts|
  {
    if |parts| > 1 {
      JoinAvoids(parts[..|parts| - 1], sep, c);
    }
  }

  /** `Field` followed by its key and `=`: the parameter text it renders. */
  lemma FieldSplit(k: string, v: string)
    requires '=' !in k
    ensures SplitFirst(k + "=" + v, '=') == [k, v]
  {
    var s := k + "=" + v;
    FindCharFirst(s, '=', 0);
    assert s[|k|] == '=';
    assert FindChar(s, '=', 0) == |k|;
    assert s[..|k|] == k && s[|k| + 1..] == v;
  }

  /**
   * Rendering texts `key=value` (keys without `=`) gives the same code as
   * rendering the pairs, with and without `encode`.
   */
  lemma ToCqParamsAgree(codeType: string, pairs: seq<(string, string)>)
    requires forall k :: 0 <= k < |pairs| ==> '=' !in pairs[k].0
    ensures var params := Fields(pairs, false);
      ToCqParams(codeType, false, params) == Ok(ToCq(codeType, false, pairs))
      && ToCqParams(codeType, true, params) == Ok(ToCq(codeType, true, pairs))
  {
    var params := Fields(pairs, false);
    if pairs != [] {
      forall k | 0 <= k < |params|
        ensures '=' in params[k] && SplitFirst(params[k], '=') == [pairs[k].0, pairs[k].1]
      {
        FieldSplit(pairs[k].0, pairs[k].1);
      }
      assert ParamPairs(params) == pairs;
    }
  }

  /** With `encode`, the texts render without error exactly when each holds a `=`. */
  lemma ToCqParamsFails(codeType: string, params: seq<string>)
    ensures ToCqParams(codeType, true, params).Err? <==> exists k :: 0 <= k < |params| && '=' !in params[k]
  {
  }

  /**
   * A rendered code is a single token: `getCqs` finds exactly the code in
   * it, when neither the type nor a key holds `]` (values are escaped).
   */
  lemma ToCqIsToken(codeType: string, pairs: seq<(string, string)>)
    requires ']' !in codeType && forall k :: 0 <= k < |pairs| ==> ']' !in pairs[k].0
    ensures var code := ToCq(codeType, true, pairs);
      Tokens(code, CqHeadOf(codeType), 0) == [code]
  {
    var code := ToCq(codeType, true, pairs);
    var head := CqHeadOf(codeType);
    var fs := Fields(pairs, true);
    forall k | 0 <= k < |fs|
      ensures ']' !in fs[k]
    {
      EncodeParamsClean(pairs[k].1);
      var e := EncodeParams(pairs[k].1);
      assert forall i :: 0 <= i < |e| ==> e[i] != ']';
      assert fs[k] == pairs[k].0 + "=" + e;
    }
    JoinAvoids(fs, ",", ']');
    var inner := if pairs == [] then head else head + "," + Join(fs, ",");
    assert code == inner + "]";
    assert ']' !in inner;
    assert Occurs(code, head, 0);
    assert forall i :: 0 <= i < |code| - 1 ==> code[i] == inner[i] && inner[i] != ']';
    TokensOfCode(code, head);
  }

  /**
   * `getCq`: a negative index throws; otherwise the `index`-th token
   * `getCqs` finds, or nothing when there are fewer.
   */
  method GetCq(text: string, codeType: string, index: int) returns (r: Result<Option<string>>)
    ensures index < 0 ==> r == Err(IndexOutOfBounds)
    ensures index >= 0 ==> var toks := Tokens(text, CqHeadOf(codeType), 0);
      r == Ok(if index < |toks| then Some(toks[index]) else None)
  {
    if index < 0 {
      return Err(IndexOutOfBounds);
    }
    var t := NthToken(text, CqHeadOf(codeType), index);
    r := Ok(t);
  }

  /** `getCqs`: the codes of the type, left to right, each from its head to the first `]` after it. */
  method GetCqs(text: string, codeType: string) returns (list: seq<string>)
    ensures list == Tokens(text, CqHeadOf(codeType), 0)
  {
    list := CollectTokens(text, CqHeadOf(codeType));
  }

  /**
   * `getParam`: in the `index`-th head of the type that a `]` closes, the
   * raw value of the key up to the next `,` or that `]`; nothing when there
   * is no such head or no such key.
   */
  method GetParam(text: string, key: string, codeType: string, index: int) returns (r: Option<string>)
    ensures var th := TerminatedHeads(text, CqHeadOf(codeType), 0);
      r == if 0 <= index < |th| then ParamAt(text, key, th[index].0, th[index].1) else None
  {
    r := NthParam(text, CqHeadOf(codeType), key, index);
  }

  /** `split`: the text cut into plain pieces and codes. */
  method Split(text: string) returns (list: seq<string>)
    ensures list == SplitSpec(text, CqHead)
  {
    list := SplitText(text, CqHead);
  }

  /**
   * `removeCode`: empty text, text shorter than the head and `]`, and text
   * without the head come back unchanged; otherwise the removal loop.
   */
  method RemoveCode(codeType: string, text: string, trim: bool, ignoreEmpty: bool, delimiter: string)
    returns (r: Result<string>)
    ensures r == RemoveCq(codeType, text, trim, ignoreEmpty, delimiter)
  {
    if text == [] {
      return Ok(text);
    }
    var head := CqHead + codeType;
    if |text| < |head| + |CqEnd| {
      return Ok(text);
    }
    if !Contains(text, head) {
      return Ok(text);
    }
    r := RemoveLoop(text, head, CqStops, codeType != [], trim, ignoreEmpty, delimiter);
  }

  /** A text in which the head does not occur comes back unchanged. */
  lemma RemoveWithoutHead(codeType: string, text: string, trim: bool, ignoreEmpty: bool, delimiter: string)
    requires forall i :: !Occurs(text, CqHeadOf(codeType), i)
    ensures RemoveCq(codeType, text, trim, ignoreEmpty, delimiter) == Ok(text)
  {
    ContainsIff(text, CqHeadOf(codeType));
  }

  /**
   * A text with a head but no `]` after it: `removeCode` as written loses
   * its first character; as intended the text comes back unchanged.
   */
  lemma RemoveUnclosedDropsFirst(text: string)
    requires text == "ab[CQ:x"
    ensures RemoveCq("", text, false, false, "") == Ok("b[CQ:x")
    ensures RemovedIntended(text, CqHead, CqStops, false, false, false, "") == Ok(text)
  {
    assert CqHead + "" == CqHead;
    assert Occurs(text, CqHead, 2);
    ContainsIff(text, CqHead);
    NotOccursAt(text, CqHead, 0);
    NotOccursAt(text, CqHead, 1);
    IndexOfIs(text, CqHead, 0, 2);
    UnclosedHeadDropsFirst(text, CqHead, CqStops, false);
  }

  /** Text without a `[`, so without any head. */
  predicate Plain(s: string) {
    forall i :: 0 <= i < |s| ==> s[i] != '['
  }

  /** A code as `remove` meets it: a head, no other `[`, and a single `]`, at the end. */
  predicate IsCode(c: string) {
    |c| > |CqHead| && c[..|CqHead|] == CqHead && c[|c| - 1] == ']'
    && (forall i :: 0 < i < |c| ==> c[i] != '[')
    && (forall i :: 0 <= i < |c| - 1 ==> c[i] != ']')
  }

  /** A head can only start at a `[`. */
  lemma HeadsAtOpen(text: string, h1: int, h2: int)
    requires forall i :: 0 <= i < |text| && i != h1 && i != h2 ==> text[i] != '['
    ensures forall i :: i != h1 && i != h2 ==> !Occurs(text, CqHead, i)
  {
    forall i | i != h1 && i != h2
      ensures !Occurs(text, CqHead, i)
    {
      NotOccursAt(text, CqHead, i);
    }
  }

  /** The first `]` from `h`, when there is none between `h` and `e`. */
  lemma CloseAt(text: string, h: int, e: int)
    requires 0 <= h <= e < |text| && text[e] == ']'
    requires forall i :: h <= i < e ==> text[i] != ']'
    ensures FindChar(text, ']', h) == e
  {
    FindCharFirst(text, ']', h);
  }

  /**
   * The searches over a text whose only `[`s are two heads, at `h1` and
   * `h2`, each closed by the `]` at `e1` and `e2`.
   */
  lemma TwoHeadsSearches(text: string, h1: int, e1: int, h2: int, e2: int)
    requires 0 <= h1 < e1 < h2 < e2 < |text| && Occurs(text, CqHead, h1) && Occurs(text, CqHead, h2)
    requires forall i :: 0 <= i < |text| && i != h1 && i != h2 ==> text[i] != '['
    requires text[e1] == ']' && text[e2] == ']'
    requires forall i :: h1 <= i < e1 ==> text[i] != ']'
    requires forall i :: h2 <= i < e2 ==> text[i] != ']'
    ensures IndexOf(text, CqHead, 0) == h1 && IndexOf(text, CqHead, h1 + 1) == h2
    ensures IndexOf(text, CqHead, h2 + 1) == -1
    ensures FindChar(text, ']', h1) == e1 && FindChar(text, ']', h2) == e2
  {
    HeadsAtOpen(text, h1, h2);
    IndexOfIs(text, CqHead, 0, h1);
    IndexOfIs(text, CqHead, h1 + 1, h2);
    IndexOfFound(text, CqHead, h2 + 1);
    CloseAt(text, h1, e1);
    CloseAt(text, h2, e2);
  }

  /** From the first head on, the walk cuts the text between `e1` and `h2` and stops at `e2`. */
  lemma TwoHeadsLater(text: string, h1: int, e1: int, h2: int, e2: int)
    requires 0 <= h1 < e1 < h2 < e2 < |text| && h2 + |CqHead| < |text|
    requires IndexOf(text, CqHead, h1 + 1) == h2 && IndexOf(text, CqHead, h2 + 1) == -1
    requires FindChar(text, ']', h2) == e2
    ensures Cuts(text, CqHead, CqStops, false, h1, e1, e1) == Ok(([(e1 + 1, h2)], e2))
  {
    assert NextMove(text, CqHead, CqStops, false, h2, e2, e2) == Stop;
    var last := Cuts(text, CqHead, CqStops, false, h2, e2, e2);
    assert last == Ok(([], e2));
    assert NextMove(text, CqHead, CqStops, false, h1, e1, e1) == Go(h2, e2, e2, Some((e1 + 1, h2)));
    assert Cuts(text, CqHead, CqStops, false, h1, e1, e1) == Prepend((e1 + 1, h2), last);
    assert [(e1 + 1, h2)] + [] == [(e1 + 1, h2)];
  }

  /** The walk over such a text cuts the text before `h1` (unless empty) and between `e1` and `h2`. */
  lemma TwoHeadsCuts(text: string, h1: int, e1: int, h2: int, e2: int)
    requires 0 <= h1 < e1 < h2 < e2 < |text| && h2 + |CqHead| < |text|
    requires IndexOf(text, CqHead, 0) == h1 && IndexOf(text, CqHead, h1 + 1) == h2
    requires IndexOf(text, CqHead, h2 + 1) == -1
    requires FindChar(text, ']', h1) == e1 && FindChar(text, ']', h2) == e2
    ensures Cuts(text, CqHead, CqStops, false, -1, -1, 0)
      == Ok(((if h1 == 0 then [] else [(0, h1)]) + [(e1 + 1, h2)], e2))
  {
    TwoHeadsLater(text, h1, e1, h2, e2);
    var second := Cuts(text, CqHead, CqStops, false, h1, e1, e1);
    if h1 == 0 {
      assert [] + [(e1 + 1, h2)] == [(e1 + 1, h2)];
      assert NextMove(text, CqHead, CqStops, false, -1, -1, 0) == Go(0, e1, e1, None);
      assert Cuts(text, CqHead, CqStops, false, -1, -1, 0) == second;
    } else {
      assert NextMove(text, CqHead, CqStops, false, -1, -1, 0) == Go(h1, e1, e1, Some((0, h1)));
      assert Cuts(text, CqHead, CqStops, false, -1, -1, 0) == Prepend((0, h1), second);
    }
  }

  /** `remove` over such a text: the builder gets the cut fragments and the text after `e2`. */
  lemma TwoHeadsRemoved(text: string, h1: int, e1: int, h2: int, e2: int,
                        trim: bool, ignoreEmpty: bool, delimiter: string)
    requires 0 <= h1 < e1 < h2 < e2 < |text| && h2 + |CqHead| < |text| && Occurs(text, CqHead, h1)
    requires IndexOf(text, CqHead, 0) == h1 && IndexOf(text, CqHead, h1 + 1) == h2
    requires IndexOf(text, CqHead, h2 + 1) == -1
    requires FindChar(text, ']', h1) == e1 && FindChar(text, ']', h2) == e2
    ensures var cut := (if h1 == 0 then [] else [(0, h1)]) + [(e1 + 1, h2)];
      Spans(text, cut)
      && RemoveCq("", text, trim, ignoreEmpty, delimiter)
         == Ok(Assemble(Slices(text, cut) + Tail(text, e2), trim, ignoreEmpty, delimiter))
  {
    assert CqHead + "" == CqHead;
    ContainsIff(text, CqHead);
    TwoHeadsCuts(text, h1, e1, h2, e2);
    RemovedOf(text, CqHead, CqStops, false, trim, ignoreEmpty, delimiter);
  }

  /**
   * The positions in `text == a + c1 + b + c2 + d`: the two heads at `h1`
   * and `h2`, closed at `e1` and `e2`.
   */
  predicate TwoCodesAt(text: string, a: string, c1: string, b: string, c2: string, d: string,
                       h1: int, e1: int, h2: int, e2: int) {
    && text == a + c1 + b + c2 + d && |c1| > 0 && |c2| > 0
    && h1 == |a| && e1 == h1 + |c1| - 1 && h2 == e1 + 1 + |b| && e2 == h2 + |c2| - 1
  }

  /** In `a + c1 + b + c2 + d` the only `[`s are the two heads, each closed by the last character of its code. */
  lemma TwoCodesLayout(text: string, a: string, c1: string, b: string, c2: string, d: string,
                       h1: int, e1: int, h2: int, e2: int)
    requires Plain(a) && Plain(b) && Plain(d) && IsCode(c1) && IsCode(c2)
    requires TwoCodesAt(text, a, c1, b, c2, d, h1, e1, h2, e2)
    ensures 0 <= h1 < e1 < h2 < e2 < |text| && h2 + |CqHead| < |text|
    ensures Occurs(text, CqHead, h1) && Occurs(text, CqHead, h2)
    ensures forall i :: 0 <= i < |text| && i != h1 && i != h2 ==> text[i] != '['
    ensures text[e1] == ']' && text[e2] == ']'
    ensures forall i :: h1 <= i < e1 ==> text[i] != ']'
    ensures forall i :: h2 <= i < e2 ==> text[i] != ']'
  {
    assert forall j :: 0 <= j < |CqHead| ==> c1[j] == c1[..|CqHead|][j] && c2[j] == c2[..|CqHead|][j];
    forall i | 0 <= i < |text|
      ensures i < h1 ==> text[i] == a[i]
      ensures h1 <= i <= e1 ==> text[i] == c1[i - h1]
      ensures e1 < i < h2 ==> text[i] == b[i - e1 - 1]
      ensures h2 <= i <= e2 ==> text[i] == c2[i - h2]
      ensures e2 < i ==> text[i] == d[i - e2 - 1]
    {
    }
  }

  /** The plain fragments of `a + c1 + b + c2 + d`, as slices. */
  lemma TwoCodesSlices(text: string, a: string, c1: string, b: string, c2: string, d: string,
                       h1: int, e1: int, h2: int, e2: int)
    requires TwoCodesAt(text, a, c1, b, c2, d, h1, e1, h2, e2)
    ensures 0 <= h1 <= e1 < h2 <= e2 < |text|
    ensures text[0..h1] == a && text[e1 + 1..h2] == b && text[e2 + 1..] == d
  {
    assert text == (a + c1) + b + (c2 + d);
    assert text[0..h1] == a;
    assert text[e1 + 1..h2] == b;
    assert text[e2 + 1..] == d;
  }

  /** The fragments cut from `a + c1 + b + c2 + d`: the text before the first code, if any, and the text between. */
  lemma TwoCodesCut(text: string, a: string, b: string, h1: int, e1: int, h2: int)
    requires 0 <= h1 <= e1 < h2 <= |text|
    requires text[0..h1] == a && text[e1 + 1..h2] == b
    ensures var cut := (if h1 == 0 then [] else [(0, h1)]) + [(e1 + 1, h2)];
      Spans(text, cut) && Slices(text, cut) == (if a == [] then [] else [a]) + [b]
  {
    var cut := (if h1 == 0 then [] else [(0, h1)]) + [(e1 + 1, h2)];
    if h1 == 0 {
      assert cut == [(e1 + 1, h2)];
      assert Slices(text, cut) == [b];
    } else {
      assert cut == [(0, h1), (e1 + 1, h2)];
      assert cut[..1] == [(0, h1)];
      assert Slices(text, cut) == [a, b];
    }
  }

  /** The fragments cut from `a + c1 + b + c2 + d`, and the text after the second code. */
  lemma TwoCodesPieces(text: string, a: string, b: string, d: string, h1: int, e1: int, h2: int, e2: int)
    requires 0 <= h1 <= e1 < h2 <= e2 < |text| && 0 < e2
    requires text[0..h1] == a && text[e1 + 1..h2] == b && text[e2 + 1..] == d
    ensures var cut := (if h1 == 0 then [] else [(0, h1)]) + [(e1 + 1, h2)];
      Spans(text, cut)
      && Slices(text, cut) + Tail(text, e2)
         == (if a == [] then [] else [a]) + [b] + (if d == [] then [] else [d])
  {
    TwoCodesCut(text, a, b, h1, e1, h2);
    assert Tail(text, e2) == (if d == [] then [] else [d]);
  }

  /**
   * Two codes among plain text: `remove` offers the builder the text before
   * the first code (when there is some), the text between the codes, and
   * the text after the second code (when there is some).
   */
  lemma RemoveTwoCodes(a: string, c1: string, b: string, c2: string, d: string,
                       trim: bool, ignoreEmpty: bool, delimiter: string)
    requires Plain(a) && Plain(b) && Plain(d) && IsCode(c1) && IsCode(c2)
    ensures RemoveCq("", a + c1 + b + c2 + d, trim, ignoreEmpty, delimiter)
      == Ok(Assemble((if a == [] then [] else [a]) + [b] + (if d == [] then [] else [d]), trim, ignoreEmpty, delimiter))
  {
    var text := a + c1 + b + c2 + d;
    var h1 := |a|;
    var e1 := h1 + |c1| - 1;
    var h2 := e1 + 1 + |b|;
    var e2 := h2 + |c2| - 1;
    assert TwoCodesAt(text, a, c1, b, c2, d, h1, e1, h2, e2);
    TwoCodesLayout(text, a, c1, b, c2, d, h1, e1, h2, e2);
    TwoHeadsSearches(text, h1, e1, h2, e2);
    TwoHeadsRemoved(text, h1, e1, h2, e2, trim, ignoreEmpty, delimiter);
    TwoCodesSlices(text, a, c1, b, c2, d, h1, e1, h2, e2);
    TwoCodesPieces(text, a, b, d, h1, e1, h2, e2);
  }

  /** A fragment that trimming leaves alone and `ignoreEmpty` keeps. */
  predicate Solid(w: string) {
    |w| > 0 && !IsWhitespace(w[0]) && !IsWhitespace(w[|w| - 1])
  }

  /** The builder keeps such a fragment as it is. */
  lemma EmitSolid(sb: string, w: string, delimiter: string)
    requires Solid(w)
    ensures Emit(sb, w, true, true, delimiter) == (if sb != [] then sb + delimiter else sb) + w
  {
    TrimFramed(w);
    assert !IsWhitespace(w[0]);
  }

  /** Three such fragments, trimmed and blank ones dropped, come out joined by the delimiter. */
  lemma AssembleSolid(x: string, y: string, z: string, delimiter: string)
    requires Solid(x) && Solid(y) && Solid(z)
    ensures Assemble([x, y, z], true, true, delimiter) == x + delimiter + y + delimiter + z
  {
    AssembleSnoc([], x, true, true, delimiter);
    assert [] + [x] == [x];
    EmitSolid("", x, delimiter);
    AssembleSnoc([x], y, true, true, delimiter);
    assert [x] + [y] == [x, y];
    EmitSolid(x, y, delimiter);
    AssembleSnoc([x, y], z, true, true, delimiter);
    assert [x, y] + [z] == [x, y, z];
    EmitSolid(x + delimiter + y, z, delimiter);
  }

  /** The codes of `RemoveExample` are codes as `remove` meets them. */
  lemma ExampleCode(c: string, n: char)
    requires c == "[CQ:at,qq=" + [n] + "]" && n != '[' && n != ']'
    ensures IsCode(c)
  {
    assert c[..|CqHead|] == CqHead;
  }

  /** With text before the first code and after the second, the builder gets all three fragments. */
  lemma RemoveBetweenText(a: string, c1: string, b: string, c2: string, d: string,
                          trim: bool, ignoreEmpty: bool, delimiter: string)
    requires Plain(a) && Plain(b) && Plain(d) && IsCode(c1) && IsCode(c2) && a != [] && d != []
    ensures RemoveCq("", a + c1 + b + c2 + d, trim, ignoreEmpty, delimiter)
      == Ok(Assemble([a, b, d], trim, ignoreEmpty, delimiter))
  {
    RemoveTwoCodes(a, c1, b, c2, d, trim, ignoreEmpty, delimiter);
    assert [a] + [b] + [d] == [a, b, d];
  }

  /** The fragments of `RemoveExample`, as the builder joins them. */
  lemma ExampleJoined(a: string, b: string, d: string)
    requires a == "A" && b == "B" && d == "C"
    ensures Assemble([a, b, d], true, true, " ") == "A B C"
  {
    assert Solid(a) && Solid(b) && Solid(d);
    AssembleSolid(a, b, d, " ");
  }

  /** The message of `RemoveExample` as its fragments and codes. */
  lemma ExampleText(text: string, c1: string, c2: string)
    requires text == "A[CQ:at,qq=1]B[CQ:at,qq=2]C" && c1 == "[CQ:at,qq=1]" && c2 == "[CQ:at,qq=2]"
    ensures text == "A" + c1 + "B" + c2 + "C"
  {
  }

  /** `remove("A[CQ:at,qq=1]B[CQ:at,qq=2]C", delimiter = " ")` is `"A B C"`. */
  lemma RemoveExample(text: string)
    requires text == "A[CQ:at,qq=1]B[CQ:at,qq=2]C"
    ensures RemoveCq("", text, true, true, " ") == Ok("A B C")
  {
    var c1, c2 := "[CQ:at,qq=1]", "[CQ:at,qq=2]";
    ExampleCode(c1, '1');
    ExampleCode(c2, '2');
    ExampleText(text, c1, c2);
    assert Plain("A") && Plain("B") && Plain("C");
    RemoveBetweenText("A", c1, "B", c2, "C", true, true, " ");
    ExampleJoined("A", "B", "C");
  }

  /** `remove`: every code, whatever its type. */
  method Remove(text: string, trim: bool, ignoreEmpty: bool, delimiter: string) returns (r: Result<string>)
    ensures r == RemoveCq("", text, trim, ignoreEmpty, delimiter)
  {
    r := RemoveCode("", text, trim, ignoreEmpty, delimiter);
  }

  /** `removeByType`: the codes of one type. */
  method RemoveByType(codeType: string, text: string, trim: bool, ignoreEmpty: bool, delimiter: string)
    returns (r: Result<string>)
    ensures r == RemoveCq(codeType, text, trim, ignoreEmpty, delimiter)
  {
    r := RemoveCode(codeType, text, trim, ignoreEmpty, delimiter);
  }
}
