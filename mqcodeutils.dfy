/**
 * `MQCodeUtils`: the same scanning utilities as `KQCodeUtils`, for mirai
 * codes `[mirai:type:param]`, together with the data class `MQCode` of
 * that file (a type and one parameter string), here `MiraiCode`.
 */
module MQCodeUtils {
  import opened Text
  import opened Results
  import opened Scan
  import opened Removal
  import KQIterators

  const MqHead: string := "[mirai:"
  const MqEnd: string := "]"
  const MqKv: string := ":"

  /** The head a search for mirai codes of type `t` looks for (`MQ_HEAD + type`). */
  function MqHeadOf(t: string): (h: string)
    ensures IsHead(h) && |h| == |t| + 7 && h[..7] == MqHead
    ensures ']' !in t ==> ']' !in h
  {
    MqHead + t
  }

  /** The data class `MQCode(type, param)`; its `toString` is `toMq(type, param)`. */
  datatype MiraiCode = MiraiCode(codeType: string, param: string)
  {
    function ToString(): string {
      ToMq(codeType, param)
    }
  }

  /** `toMq(type, param)`. */
  function ToMq(codeType: string, param: string): string {
    MqHead + codeType + MqKv + param + MqEnd
  }

  /**
   * `toMqCode(str)`: a blank text, or one without two `:` and a `]`, is
   * refused; the type lies between the first two `:`, the parameter from
   * the second `:` to the first `]`, and a first `]` before the second `:`
   * makes that last cut fail.
   */
  function ToMqCode(str: string): (r: Result<MiraiCode>)
    ensures r.Err? ==> r.error in {IllegalArgument, StringIndexOutOfBounds}
    ensures r.Ok? ==> ':' !in r.value.codeType && ']' !in r.value.param
  {
    if IsBlank(str) then Err(IllegalArgument)
    else
      var i1 := FindChar(str, ':', 0);
      var i2 := FindChar(str, ':', i1 + 1);
      var end := FindChar(str, ']', 0);
      if i1 < 0 || i2 < 0 || end < 0 then Err(IllegalArgument)
      else if end < i2 + 1 then Err(StringIndexOutOfBounds)
      else
        FindCharFirst(str, ':', i1 + 1);
        FindCharFirst(str, ']', 0);
        SliceAvoids(str, i1 + 1, i2, ':');
        SliceAvoids(str, i2 + 1, end, ']');
        Ok(MiraiCode(str[i1 + 1..i2], str[i2 + 1..end]))
  }

  /** A stretch of text in which `c` does not occur. */
  lemma SliceAvoids(s: string, a: int, b: int, c: char)
    requires 0 <= a <= b <= |s| && forall i :: a <= i < b ==> s[i] != c
    ensures c !in s[a..b]
  {
    forall j | 0 <= j < b - a ensures s[a..b][j] != c {
      assert s[a..b][j] == s[a + j];
    }
  }

  /** The parts of a rendered mirai code, at the positions the parser looks at. */
  lemma ToMqLayout(t: string, p: string) returns (s: string)
    ensures s == ToMq(t, p) && |s| == 9 + |t| + |p|
    ensures s[..7] == MqHead && s[7..7 + |t|] == t && s[7 + |t|] == ':'
    ensures s[8 + |t|..8 + |t| + |p|] == p && s[|s| - 1] == ']'
  {
    s := ToMq(t, p);
    assert s == MqHead + (t + (MqKv + (p + MqEnd)));
  }

  /**
   * Round trip: a code rendered by `toMq` parses back to its type and
   * parameter, when the type holds no `:` or `]` and the parameter no `]`.
   */
  lemma ToMqRoundTrip(t: string, p: string)
    requires ':' !in t && ']' !in t && ']' !in p
    ensures ToMqCode(ToMq(t, p)) == Ok(MiraiCode(t, p))
  {
    var s := ToMqLayout(t, p);
    assert s[0] == MqHead[0] && !IsWhitespace(s[0]);
    assert s[..6] == MqHead[..6] == "[mirai";
    FindCharAfter(s, 0, "[mirai", ':');
    FindCharAfter(s, 7, t, ':');
    var w := MqHead + t + MqKv + p;
    assert s == w + MqEnd;
    assert ']' !in MqHead + MqKv;
    FindCharAfter(s, 0, w, ']');
  }

  /** A mirai code string: it starts with the mirai head and its only `]` ends it. */
  predicate IsMiraiCode(s: string) {
    IsCode(MqHead, s)
  }

  /**
   * Parsing one of the codes `getMqs` finds fails exactly when it has no
   * second `:`, and then with `IllegalArgumentException`; a code that parses
   * renders back to itself.
   */
  lemma TokenParses(s: string)
    requires IsMiraiCode(s)
    ensures ToMqCode(s).Ok? <==> FindChar(s, ':', 7) >= 0
    ensures ToMqCode(s).Err? ==> ToMqCode(s).error == IllegalArgument
    ensures ToMqCode(s).Ok? ==> ToMqCode(s).value.ToString() == s
  {
    MiraiCodeHead(s);
    var i2 := FindChar(s, ':', 7);
    if i2 >= 0 {
      MiraiCodeRenders(s, i2);
    }
  }

  /** Where the parser of a mirai code string finds its first `:` and its `]`. */
  lemma MiraiCodeHead(s: string)
    requires IsMiraiCode(s)
    ensures |s| >= 8 && s[..7] == MqHead && s[|s| - 1] == ']' && !IsBlank(s)
    ensures FindChar(s, ':', 0) == 6 && FindChar(s, ']', 0) == |s| - 1
  {
    assert s[..7] == MqHead by {
      assert forall j :: 0 <= j < 7 ==> s[..7][j] == s[0 + j] == MqHead[j];
    }
    assert s[0] == s[..7][0] == '[' && !IsWhitespace(s[0]);
    assert s[..6] == s[..7][..6] == "[mirai" && s[6] == s[..7][6] == ':';
    FindCharAfter(s, 0, "[mirai", ':');
    FindCharFirst(s, ']', 0);
  }

  /** A mirai code string cut at its first two `:` and its `]` renders back to itself. */
  lemma MiraiCodeRenders(s: string, i2: int)
    requires |s| >= 8 && s[..7] == MqHead && s[|s| - 1] == ']'
    requires 7 <= i2 < |s| && s[i2] == ':'
    ensures i2 < |s| - 1 && ToMq(s[7..i2], s[i2 + 1..|s| - 1]) == s
  {
    assert s == s[..7] + s[7..i2] + [s[i2]] + s[i2 + 1..|s| - 1] + [s[|s| - 1]];
  }

  /** `getMq(text, type, index)`: blank text gives nothing, a negative index throws, else the `index`-th code. */
  method GetMq(text: string, codeType: string, index: int) returns (r: Result<Option<string>>)
    ensures IsBlank(text) ==> r == Ok(None)
    ensures !IsBlank(text) && index < 0 ==> r == Err(IndexOutOfBounds)
    ensures !IsBlank(text) && index >= 0 ==> var toks := Tokens(text, MqHeadOf(codeType), 0);
      r == Ok(if index < |toks| then Some(toks[index]) else None)
  {
    if IsBlank(text) {
      return Ok(None);
    }
    if index < 0 {
      return Err(IndexOutOfBounds);
    }
    var t := NthToken(text, MqHeadOf(codeType), index);
    r := Ok(t);
  }

  /** `getMqCode(text, type, index)`: the code `getMq` finds, parsed. */
  method GetMqCode(text: string, codeType: string, index: int) returns (r: Result<Option<MiraiCode>>)
    ensures IsBlank(text) ==> r == Ok(None)
    ensures !IsBlank(text) && index < 0 ==> r == Err(IndexOutOfBounds)
    ensures !IsBlank(text) && index >= 0 ==> var toks := Tokens(text, MqHeadOf(codeType), 0);
      r == if index >= |toks| then Ok(None)
           else match ToMqCode(toks[index]) case Ok(c) => Ok(Some(c)) case Err(e) => Err(e)
  {
    var mq := GetMq(text, codeType, index);
    match mq {
      case Err(e) => r := Err(e);
      case Ok(None) => r := Ok(None);
      case Ok(Some(s)) =>
        match ToMqCode(s) {
          case Ok(c) => r := Ok(Some(c));
          case Err(e) => r := Err(e);
        }
    }
  }

  /** `getMqs(text, type)`: blank text has none; otherwise every code of the type, in order. */
  method GetMqs(text: string, codeType: string) returns (list: seq<string>)
    ensures list == if IsBlank(text) then [] else Tokens(text, MqHeadOf(codeType), 0)
  {
    if IsBlank(text) {
      return [];
    }
    list := CollectTokens(text, MqHeadOf(codeType));
  }

  /** Every code string parsed in order; the first that fails fails the whole list. */
  function ParseAll(toks: seq<string>): (r: Result<seq<MiraiCode>>)
    ensures r.Ok? ==> |r.value| == |toks|
    decreases |toks|
  {
    if toks == [] then Ok([])
    else
      match ToMqCode(toks[0])
      case Err(e) => Err(e)
      case Ok(c) =>
        match ParseAll(toks[1..])
        case Err(e) => Err(e)
        case Ok(cs) => Ok([c] + cs)
  }

  /** Parsing one more code string after a list that parsed. */
  lemma {:induction false} ParseAllSnoc(a: seq<string>, x: string)
    requires ParseAll(a).Ok?
    ensures ParseAll(a + [x]) == match ToMqCode(x)
      case Ok(c) => Ok(ParseAll(a).value + [c])
      case Err(e) => Err(e)
    decreases |a|
  {
    if a == [] {
      assert a + [x] == [x] && [x][1..] == [];
      assert ParseAll([x][1..]) == Ok([]);
      match ToMqCode(x) {
        case Ok(d) => assert [d] + [] == [] + [d];
        case Err(e) =>
      }
    } else {
      var c := ToMqCode(a[0]).value;
      assert (a + [x])[0] == a[0] && (a + [x])[1..] == a[1..] + [x];
      ParseAllSnoc(a[1..], x);
      var cs := ParseAll(a[1..]).value;
      assert ParseAll(a).value == [c] + cs;
      match ToMqCode(x) {
        case Ok(d) => assert [c] + (cs + [d]) == ([c] + cs) + [d];
        case Err(e) =>
      }
    }
  }

  /** Once a code string fails, what follows it is never parsed. */
  lemma {:induction false} ParseAllStops(a: seq<string>, b: seq<string>)
    requires ParseAll(a).Err?
    ensures ParseAll(a + b) == ParseAll(a)
    decreases |a|
  {
    assert a != [];
    assert (a + b)[0] == a[0];
    if ToMqCode(a[0]).Ok? {
      assert (a + b)[1..] == a[1..] + b;
      ParseAllStops(a[1..], b);
    }
  }

  /** The list parses exactly when every code string does, each into its own code. */
  lemma {:induction false} ParseAllPointwise(toks: seq<string>)
    ensures ParseAll(toks).Ok? <==> forall k :: 0 <= k < |toks| ==> ToMqCode(toks[k]).Ok?
    ensures ParseAll(toks).Ok? ==> forall k :: 0 <= k < |toks| ==> ToMqCode(toks[k]) == Ok(ParseAll(toks).value[k])
    decreases |toks|
  {
    if toks != [] {
      ParseAllPointwise(toks[1..]);
      assert forall k :: 1 <= k < |toks| ==> toks[k] == toks[1..][k - 1];
      if ParseAll(toks).Ok? {
        var cs := ParseAll(toks).value;
        assert forall k :: 1 <= k < |toks| ==> cs[k] == ParseAll(toks[1..]).value[k - 1];
      }
    }
  }

  /** One code string more of the walk: parsed onto the list, or the failure of the whole walk. */
  lemma ParseStep(seen: seq<string>, tok: string, rest: seq<string>, whole: seq<string>, list: seq<MiraiCode>)
    requires seen + ([tok] + rest) == whole && ParseAll(seen) == Ok(list)
    ensures match ToMqCode(tok)
      case Ok(c) => (seen + [tok]) + rest == whole && ParseAll(seen + [tok]) == Ok(list + [c])
      case Err(e) => ParseAll(whole) == Err(e)
  {
    AppendShift(seen, tok, rest, whole);
    ParseAllSnoc(seen, tok);
    if ToMqCode(tok).Err? {
      ParseAllStops(seen + [tok], rest);
    }
  }

  /**
   * `getMqCodes(text, type)`: blank text has none; otherwise the codes
   * `getMqs` finds, each parsed, the first that does not parse throwing.
   */
  method GetMqCodes(text: string, codeType: string) returns (r: Result<seq<MiraiCode>>)
    ensures r == if IsBlank(text) then Ok([]) else ParseAll(Tokens(text, MqHeadOf(codeType), 0))
  {
    if IsBlank(text) {
      return Ok([]);
    }
    var head := MqHeadOf(codeType);
    var ti: int;
    var e := 0;
    var list: seq<MiraiCode> := [];
    ghost var seen: seq<string> := [];
    while true
      invariant 0 <= e <= |text|
      invariant seen + Tokens(text, head, e) == Tokens(text, head, 0)
      invariant ParseAll(seen) == Ok(list)
      decreases |text| - e
    {
      ghost var from := e;
      ti := IndexOf(text, head, e);
      TokensStep(text, head, from);
      if ti >= 0 {
        e := FindChar(text, ']', ti);
        if e >= 0 {
          var tok := text[ti..e + 1];
          ParseStep(seen, tok, Tokens(text, head, e), Tokens(text, head, 0), list);
          match ToMqCode(tok) {
            case Err(err) =>
              return Err(err);
            case Ok(c) =>
              list := list + [c];
              seen := seen + [tok];
              assert seen + Tokens(text, head, e) == Tokens(text, head, 0);
          }
        } else {
          e := ti + 1;
          assert seen + Tokens(text, head, e) == Tokens(text, head, 0);
        }
      }
      if !(ti >= 0 && e >= 0) {
        break;
      }
    }
    assert seen + [] == seen;
    r := Ok(list);
  }

  /**
   * Every code `getMqCodes` returns renders back to the code string it was
   * parsed from, provided the type holds no `]`.
   */
  lemma GetMqCodesRender(text: string, codeType: string)
    requires ']' !in codeType
    ensures var toks := Tokens(text, MqHeadOf(codeType), 0);
      ParseAll(toks).Ok? ==> forall k :: 0 <= k < |toks| ==> ParseAll(toks).value[k].ToString() == toks[k]
  {
    var head := MqHeadOf(codeType);
    var toks := Tokens(text, head, 0);
    TokensShape(text, head, 0);
    ParseAllPointwise(toks);
    forall k | 0 <= k < |toks| && ParseAll(toks).Ok?
      ensures ParseAll(toks).value[k].ToString() == toks[k]
    {
      assert IsCode(head, toks[k]);
      assert Occurs(toks[k], MqHead, 0) by {
        assert forall j :: 0 <= j < 7 ==> toks[k][0 + j] == head[j] == MqHead[j];
      }
      TokenParses(toks[k]);
    }
  }

  /** `split(text)`: the text cut into plain pieces and mirai codes, by the rules of `KQCodeUtils.split`. */
  method Split(text: string) returns (list: seq<string>)
    ensures list == SplitSpec(text, MqHead)
  {
    list := SplitText(text, MqHead);
  }

  /**
   * `removeCode(type, text, …)`: null gives null; empty text and text
   * shorter than the head and `]` come back unchanged; otherwise the
   * removal loop runs, whether or not the head occurs.
   */
  method RemoveCode(codeType: string, text: Option<string>, trim: bool, ignoreEmpty: bool, delimiter: string)
    returns (r: Result<Option<string>>)
    ensures r == RemoveMq(codeType, text, trim, ignoreEmpty, delimiter)
  {
    if text.None? {
      return Ok(None);
    }
    var t := text.value;
    if t == [] {
      return Ok(text);
    }
    var head := MqHead + codeType;
    if |t| < |head| + |MqEnd| {
      return Ok(text);
    }
    var s := RemoveLoop(t, head, MqStops, codeType != [], trim, ignoreEmpty, delimiter);
    match s {
      case Ok(v) => r := Ok(Some(v));
      case Err(e) => r := Err(e);
    }
  }

  /** `remove(text, …)`: every mirai code. */
  method Remove(text: string, trim: bool, ignoreEmpty: bool, delimiter: string) returns (r: Result<Option<string>>)
    ensures r == RemoveMq("", Some(text), trim, ignoreEmpty, delimiter)
  {
    r := RemoveCode("", Some(text), trim, ignoreEmpty, delimiter);
  }

  /** `removeByType(type, text, …)`: the mirai codes of one type. */
  method RemoveByType(codeType: string, text: Option<string>, trim: bool, ignoreEmpty: bool, delimiter: string)
    returns (r: Result<Option<string>>)
    ensures r == RemoveMq(codeType, text, trim, ignoreEmpty, delimiter)
  {
    r := RemoveCode(codeType, text, trim, ignoreEmpty, delimiter);
  }

  /**
   * Text of eight characters or more without any mirai code: there is no
   * check that a head occurs, so `remove` as written drops its first
   * character; as intended it comes back unchanged.
   */
  lemma RemovePlainDropsFirst(text: string)
    requires |text| > 7 && forall i :: !Occurs(text, MqHead, i)
    ensures RemoveMq("", Some(text), false, false, "") == Ok(Some(text[1..]))
    ensures RemovedIntended(text, MqHead, MqStops, false, false, false, "") == Ok(text)
  {
    assert MqHead + "" == MqHead;
    RemovedDropsFirst(text, MqHead, MqStops, false);
    RemovedIntendedNoHead(text, MqHead, MqStops, false, false, false, "");
  }

  /**
   * A typed removal needs `]` right after `"[mirai:" + type`: a code of the
   * type that carries a parameter is not removed, and when it opens the
   * text nothing is cut (as written, the first character still goes).
   */
  lemma RemoveTypedKeepsParameter(t: string, p: string, rest: string)
    requires t != []
    ensures var text := ToMq(t, p) + rest;
      && RemoveMq(t, Some(text), false, false, "") == Ok(Some(text[1..]))
      && RemovedIntended(text, MqHead + t, MqStops, true, false, false, "") == Ok(text)
  {
    var s := ToMqLayout(t, p);
    var text := s + rest;
    var head := MqHead + t;
    assert text[..7 + |t|] == head;
    assert Occurs(text, head, 0) by {
      forall j | 0 <= j < |head| ensures text[0 + j] == head[j] {
        assert text[..7 + |t|][j] == text[j];
      }
    }
    assert text[|head|] == ':';
    TypedStopsAtLongerType(text, head, MqStops);
  }

  /** `getMqIter(text, type)`: an iterator over the codes `getMqs` finds. */
  method MqIter(text: string, codeType: string) returns (it: KQIterators.TextIterator)
    ensures fresh(it) && it.Valid() && it.Ahead() == Tokens(text, MqHeadOf(codeType), 0)
  {
    it := new KQIterators.TextIterator(text, MqHeadOf(codeType));
  }
}
