/**
 * `codes.MQCode`: a mirai code whose parameters live in an array that
 * `setParam` overwrites in place; the text is rendered afresh on every
 * `toString`.
 */
module MQCode {
  import opened Text
  import opened Results
  import opened LinkedMap
  import opened MQCodeUtils
  import MapKQCode
  import KQCodeUtils

  /** The decimal digit `d`. */
  function Digit(d: int): char
    requires 0 <= d < 10
  {
    ('0' as int + d) as char
  }

  /** `Int.toString()` of a non-negative number: its decimal digits, no leading zero. */
  function Decimal(n: nat): (r: string)
    ensures |r| >= 1 && (n >= 10 ==> |r| >= 2)
    decreases n
  {
    if n < 10 then [Digit(n)] else Decimal(n / 10) + [Digit(n % 10)]
  }

  /** Different numbers have different decimal texts. */
  lemma {:induction false} DecimalInjective(a: nat, b: nat)
    requires Decimal(a) == Decimal(b)
    ensures a == b
    decreases a
  {
    if a < 10 && b < 10 {
      assert Digit(a) == Decimal(a)[0] == Decimal(b)[0] == Digit(b);
      assert Digit(a) as int == '0' as int + a;
    } else if a >= 10 && b >= 10 {
      var da, db := Decimal(a), Decimal(b);
      assert da[..|da| - 1] == Decimal(a / 10) && db[..|db| - 1] == Decimal(b / 10);
      DecimalInjective(a / 10, b / 10);
      assert Digit(a % 10) == da[|da| - 1] == db[|db| - 1] == Digit(b % 10);
      assert Digit(a % 10) as int == '0' as int + a % 10;
    }
  }

  /** The key `"param$i"` under which `toKQCode` stores parameter `i`. */
  function ParamKey(i: nat): string {
    "param" + Decimal(i)
  }

  lemma ParamKeyInjective(i: nat, j: nat)
    requires ParamKey(i) == ParamKey(j)
    ensures i == j
  {
    assert ParamKey(i)[5..] == Decimal(i) && ParamKey(j)[5..] == Decimal(j);
    DecimalInjective(i, j);
  }

  /**
   * The text `toString` renders: `"[mirai:" + type + "]"` without
   * parameters, `"[mirai:" + type + ":" + params joined by "," + "]"` with.
   */
  function Value(codeType: string, params: seq<string>): string {
    MqHead + codeType + (if |params| > 0 then MqKv + Join(params, ",") else "") + MqEnd
  }

  /**
   * What `toMqCode` makes of the rendered text: the type and the joined
   * parameters back, when there are parameters; a refusal, for want of a
   * second `:`, when there are none.
   */
  lemma ValueParses(t: string, params: seq<string>)
    requires ':' !in t && ']' !in t && forall k :: 0 <= k < |params| ==> ']' !in params[k]
    ensures ToMqCode(Value(t, params))
         == if |params| > 0 then Ok(MiraiCode(t, Join(params, ","))) else Err(IllegalArgument)
  {
    ValueShape(t, params);
    if |params| > 0 {
      KQCodeUtils.JoinAvoids(params, ",", ']');
      ToMqRoundTrip(t, Join(params, ","));
    } else {
      NoParamsRefused(t);
    }
  }

  /** The rendered text is `toMq`'s with parameters, the bare head and type without. */
  lemma ValueShape(t: string, params: seq<string>)
    ensures Value(t, params) == if |params| > 0 then ToMq(t, Join(params, ",")) else MqHead + t + MqEnd
  {
  }

  /** A mirai code with only one `:` does not parse. */
  lemma NoParamsRefused(t: string)
    requires ':' !in t
    ensures ToMqCode(MqHead + t + MqEnd) == Err(IllegalArgument)
  {
    var s := MqHead + t + MqEnd;
    assert s == MqHead + (t + MqEnd);
    assert s[..7] == MqHead;
    assert s[0] == MqHead[0] && !IsWhitespace(s[0]);
    assert s[..6] == MqHead[..6] == "[mirai" && s[6] == MqHead[6];
    FindCharAfter(s, 0, "[mirai", ':');
    FindCharFirst(s, ':', 7);
    assert forall j :: 7 <= j < |s| ==> s[j] == (t + MqEnd)[j - 7];
  }

  /** A code with one parameter renders as `toMq` does for the data class. */
  lemma SingleValue(t: string, p: string)
    ensures Value(t, [p]) == ToMq(t, p) == MiraiCode(t, p).ToString()
  {
    assert Join([p], ",") == p;
  }

  /** Rendering forgets where the parameters were cut: one parameter `a,b` looks like two. */
  lemma ValueForgetsCuts()
    ensures Value("t", ["a,b"]) == Value("t", ["a", "b"])
  {
    assert Join(["a", "b"], ",") == Join(["a"], ",") + "," + "b";
    assert Join(["a"], ",") == "a";
    assert Join(["a,b"], ",") == "a,b";
  }

  /** The pairs `"param$i" to p_i`, in order. */
  function IndexedPairs(params: seq<string>): (r: Entries)
    ensures |r| == |params|
  {
    seq(|params|, i requires 0 <= i < |params| => (ParamKey(i), params[i]))
  }

  /**
   * `toKQCode()`: with no parameters, a code of the type with none; else
   * `type -> params joined by ","` followed by `"param$i" -> p_i`, as
   * `mapOf` builds them (a later key overwriting an earlier one).
   */
  function KQOf(t: string, params: seq<string>): MapKQCode.MapCode {
    if |params| == 0 then MapKQCode.MapCode(t, [])
    else MapKQCode.ByPairs(t, [(t, Join(params, ","))] + IndexedPairs(params))
  }

  /** Each parameter is found under its `"param$i"` key. */
  lemma KQOfParam(t: string, params: seq<string>, i: int)
    requires 0 <= i < |params|
    ensures MapKQCode.Get(KQOf(t, params), ParamKey(i)) == Some(params[i])
    ensures KQOf(t, params).codeType == t
  {
    var ps := [(t, Join(params, ","))] + IndexedPairs(params);
    forall j | i + 1 < j < |ps| ensures ps[j].0 != ps[i + 1].0 {
      if ps[j].0 == ps[i + 1].0 {
        ParamKeyInjective(j - 1, i);
      }
    }
    LastValueAt(ps, i + 1);
  }

  /** The type's own key holds the joined parameters unless a `"param$i"` key equals the type. */
  lemma KQOfType(t: string, params: seq<string>)
    requires |params| > 0 && forall i :: 0 <= i < |params| ==> ParamKey(i) != t
    ensures MapKQCode.Get(KQOf(t, params), t) == Some(Join(params, ","))
  {
    var ps := [(t, Join(params, ","))] + IndexedPairs(params);
    forall j | 0 < j < |ps| ensures ps[j].0 != ps[0].0 {
      assert ps[j] == IndexedPairs(params)[j - 1];
    }
    LastValueAt(ps, 0);
    assert KQOf(t, params) == MapKQCode.ByPairs(t, ps);
  }

  /** No other key is present; a code without parameters has none at all. */
  lemma KQOfOther(t: string, params: seq<string>, k: string)
    requires |params| == 0 || k != t
    requires forall i :: 0 <= i < |params| ==> ParamKey(i) != k
    ensures MapKQCode.Get(KQOf(t, params), k) == None
  {
    if |params| > 0 {
      var ps := [(t, Join(params, ","))] + IndexedPairs(params);
      assert forall j :: 0 < j < |ps| ==> ps[j].0 == ParamKey(j - 1);
      LastValueAbsent(ps, k);
    }
  }

  /** The array-backed mirai code. */
  class MqCode {
    const codeType: string
    const param: array<string>
    /** Whether there were no parameters when the code was made. */
    const paramEmpty: bool

    ghost predicate Valid() {
      paramEmpty == (param.Length == 0)
    }

    /** The primary constructor: the caller's array itself becomes the parameters. */
    constructor(codeType: string, param: array<string>)
      ensures Valid() && this.codeType == codeType && this.param == param
    {
      this.codeType := codeType;
      this.param := param;
      paramEmpty := param.Length == 0;
    }

    /** The single-parameter constructor: null gives no parameters. */
    constructor Single(codeType: string, singleParam: Option<string>)
      ensures Valid() && this.codeType == codeType && fresh(param)
      ensures param[..] == if singleParam.Some? then [singleParam.value] else []
      ensures paramEmpty <==> singleParam.None?
    {
      var a: array<string>;
      if singleParam.Some? {
        a := new string[1];
        a[0] := singleParam.value;
      } else {
        a := new string[0];
      }
      this.codeType := codeType;
      this.param := a;
      paramEmpty := a.Length == 0;
    }

    /** `toString()`, recomputed from the array on every call. */
    function ToString(): string
      reads param
    {
      Value(codeType, param[..])
    }

    /** `getParam(index)`: the slot, or a failure outside the array. */
    function GetParam(index: int): (r: Result<string>)
      reads param
      ensures r.Ok? <==> 0 <= index < param.Length
      ensures r.Ok? ==> r.value == param[..][index]
      ensures r.Err? ==> r.error == IndexOutOfBounds
    {
      if 0 <= index < param.Length then Ok(param[index]) else Err(IndexOutOfBounds)
    }

    /** `setParam(index, value)`: overwrites one slot in place; outside the array it fails and writes nothing. */
    method SetParam(index: int, value: string) returns (r: Outcome)
      requires Valid()
      modifies param
      ensures Valid()
      ensures 0 <= index < param.Length ==> r == Pass && param[..] == old(param[..])[index := value]
      ensures !(0 <= index < param.Length) ==> r == Fail(IndexOutOfBounds) && param[..] == old(param[..])
      ensures r == Pass ==> GetParam(index) == Ok(value)
      ensures forall j :: j != index ==> GetParam(j) == old(GetParam(j))
    {
      if 0 <= index < param.Length {
        param[index] := value;
        r := Pass;
      } else {
        r := Fail(IndexOutOfBounds);
      }
    }

    /** `size`: the number of parameters, zero exactly when `paramEmpty` was set. */
    function Size(): (n: nat)
      requires Valid()
      ensures n == param.Length && (n == 0 <==> paramEmpty)
    {
      param.Length
    }

    /** `toKQCode()`. */
    function ToKQCode(): MapKQCode.MapCode
      reads param
    {
      KQOf(codeType, param[..])
    }

    /** `equals`: same type, the same array contents and the same text. */
    predicate Equals(other: MqCode)
      reads param, other.param
    {
      codeType == other.codeType && param[..] == other.param[..] && ToString() == other.ToString()
    }
  }

  /** Equal codes are those of one type with the same parameters; the texts then agree too. */
  lemma EqualsIff(a: MqCode, b: MqCode)
    ensures a.Equals(b) <==> a.codeType == b.codeType && a.param[..] == b.param[..]
  {
  }
}
