/**
 * The index walks that `KQCodeUtils` and `MQCodeUtils` share, written once
 * over the code head (`"[CQ:" + type` or `"[mirai:" + type`).
 *
 * Each walk is a method with the source's loop, proved against a
 * specification function that describes the walk's result declaratively:
 * `Tokens` (the code strings `getCqs` finds), `TerminatedHeads` (the heads
 * `getParam` counts), and `SplitSpec` (the pieces `split` returns).
 */
module Scan {
  import opened Text
  import opened Results

  /** A code head: it opens with `[`, so it never starts at a `]`. */
  predicate IsHead(head: string) {
    |head| > 0 && head[0] == '['
  }

  lemma HeadAt(text: string, head: string, i: int)
    requires IsHead(head) && Occurs(text, head, i)
    ensures text[i] == '['
  {
    assert text[i + 0] == head[0];
  }

  /** A head found by the search opens with `[`. */
  lemma HeadFound(text: string, head: string, from: int)
    requires IsHead(head)
    ensures IndexOf(text, head, from) >= 0 ==> text[IndexOf(text, head, from)] == '['
  {
    IndexOfFound(text, head, from);
    if IndexOf(text, head, from) >= 0 {
      HeadAt(text, head, IndexOf(text, head, from));
    }
  }

  /** Moving one element across a concatenation. */
  lemma AppendShift<T>(a: seq<T>, x: T, b: seq<T>, c: seq<T>)
    requires a + ([x] + b) == c
    ensures (a + [x]) + b == c
  {
    assert (a + [x]) + b == a + ([x] + b);
  }

  /** An element of the prefix of a concatenation. */
  lemma PrefixAt<T>(a: seq<T>, b: seq<T>, c: seq<T>, k: nat)
    requires a + b == c && k < |a|
    ensures c[k] == a[k]
  {
    assert c[k] == (a + b)[k];
  }

  /**
   * The code strings found by searching for `head` from `from`: after a head
   * with a `]` somewhere after it, the code runs to that `]` and the search
   * resumes there; after a head with no `]` after it, the search resumes one
   * character further on.
   */
  function Tokens(text: string, head: string, from: nat): seq<string>
    requires IsHead(head)
    decreases |text| - from
  {
    var ti := IndexOf(text, head, from);
    if ti < 0 then []
    else
      var e := FindChar(text, ']', ti);
      if e < 0 then Tokens(text, head, ti + 1)
      else
        HeadFound(text, head, from);
        [text[ti..e + 1]] + Tokens(text, head, e)
  }

  /** One step of the walk, as the loops take it. */
  lemma TokensStep(text: string, head: string, from: nat)
    requires IsHead(head)
    ensures var ti := IndexOf(text, head, from); var e := FindChar(text, ']', ti);
      && (ti < 0 ==> Tokens(text, head, from) == [])
      && (ti >= 0 && e < 0 ==> Tokens(text, head, from) == Tokens(text, head, ti + 1))
      && (ti >= 0 && e >= 0 ==> ti < e && Tokens(text, head, from) == [text[ti..e + 1]] + Tokens(text, head, e))
  {
    HeadFound(text, head, from);
  }

  /** The step of the token walk at a head closed by the `]` at `e`. */
  lemma TokensHit(text: string, head: string, from: nat, ti: int, e: int)
    requires IsHead(head)
    requires ti == IndexOf(text, head, from) >= 0 && e == FindChar(text, ']', ti) >= 0
    ensures Tokens(text, head, from) == [text[ti..e + 1]] + Tokens(text, head, e)
  {
  }

  /** A code string: it starts with the head and its only `]` is its last character. */
  predicate IsCode(head: string, t: string) {
    Occurs(t, head, 0) && |t| > 0 && t[|t| - 1] == ']' && forall j :: 0 <= j < |t| - 1 ==> t[j] != ']'
  }

  /** A head without `]` occurring at `ti` puts no `]` in the text it covers. */
  lemma HeadHoldsNoEnd(text: string, head: string, ti: int)
    requires Occurs(text, head, ti) && ']' !in head
    ensures forall j :: ti <= j < ti + |head| ==> text[j] != ']'
  {
    forall j | ti <= j < ti + |head|
      ensures text[j] != ']'
    {
      assert text[ti + (j - ti)] == head[j - ti];
    }
  }

  /** A head found at `ti` and the first `]` after it at `e`: that stretch is a code. */
  lemma CodeAt(text: string, head: string, from: int, ti: int, e: int)
    requires IsHead(head) && ']' !in head
    requires ti == IndexOf(text, head, from) >= 0 && e == FindChar(text, ']', ti) >= 0
    ensures IsCode(head, text[ti..e + 1])
  {
    IndexOfFound(text, head, from);
    FindCharFirst(text, ']', ti);
    HeadHoldsNoEnd(text, head, ti);
    var t := text[ti..e + 1];
    assert Occurs(t, head, 0) by {
      forall j | 0 <= j < |head| ensures t[0 + j] == head[j] {
        assert text[ti + j] == head[j];
      }
    }
    forall j | 0 <= j < |t| - 1 ensures t[j] != ']' {
      assert t[j] == text[ti + j];
    }
  }

  /** Every token is a code string, provided the head itself holds no `]`. */
  lemma {:induction false} TokensShape(text: string, head: string, from: nat)
    requires IsHead(head) && ']' !in head
    ensures forall k :: 0 <= k < |Tokens(text, head, from)| ==> IsCode(head, Tokens(text, head, from)[k])
    decreases |text| - from
  {
    var ti := IndexOf(text, head, from);
    TokensStep(text, head, from);
    if ti >= 0 {
      var e := FindChar(text, ']', ti);
      if e < 0 {
        TokensShape(text, head, ti + 1);
      } else {
        TokensShape(text, head, e);
        CodeAt(text, head, from, ti, e);
        var r := Tokens(text, head, from);
        forall k | 1 <= k < |r| ensures IsCode(head, r[k]) {
          assert r[k] == Tokens(text, head, e)[k - 1];
        }
      }
    }
  }

  /** No token is found exactly when no head at or after `from` has a `]` after it. */
  lemma {:induction false} TokensEmpty(text: string, head: string, from: nat)
    requires IsHead(head)
    ensures Tokens(text, head, from) == [] <==>
      forall i :: from <= i && Occurs(text, head, i) ==> FindChar(text, ']', i) < 0
    decreases |text| - from
  {
    var ti := IndexOf(text, head, from);
    TokensStep(text, head, from);
    IndexOfFirst(text, head, from);
    IndexOfFound(text, head, from);
    if ti >= 0 {
      var e := FindChar(text, ']', ti);
      if e < 0 {
        TokensEmpty(text, head, ti + 1);
        forall i | from <= i && Occurs(text, head, i) && i < ti + 1
          ensures FindChar(text, ']', i) < 0
        {
          assert i == ti;
        }
      }
    }
  }

  /** A code on its own is the one token found in it. */
  lemma TokensOfCode(code: string, head: string)
    requires IsHead(head) && IsCode(head, code)
    ensures Tokens(code, head, 0) == [code]
  {
    IndexOfIs(code, head, 0, 0);
    FindCharFirst(code, ']', 0);
    assert FindChar(code, ']', 0) == |code| - 1;
    TokensHit(code, head, 0, 0, |code| - 1);
    assert IndexOf(code, head, |code| - 1) < 0;
    TokensStep(code, head, |code| - 1);
    assert code[0..|code|] == code;
    assert [code] + [] == [code];
  }

  /** `getCqs` / `getMqs`: the `do … while` walk collecting every token. */
  method CollectTokens(text: string, head: string) returns (list: seq<string>)
    requires IsHead(head)
    ensures list == Tokens(text, head, 0)
  {
    var ti: int;
    var e := 0;
    list := [];
    while true
      invariant 0 <= e <= |text|
      invariant list + Tokens(text, head, e) == Tokens(text, head, 0)
      decreases |text| - e
    {
      ti := IndexOf(text, head, e);
      TokensStep(text, head, e);
      if ti >= 0 {
        e := FindChar(text, ']', ti);
        if e >= 0 {
          AppendShift(list, text[ti..e + 1], Tokens(text, head, e), Tokens(text, head, 0));
          list := list + [text[ti..e + 1]];
          assert list + Tokens(text, head, e) == Tokens(text, head, 0);
        } else {
          e := ti + 1;
          assert list + Tokens(text, head, e) == Tokens(text, head, 0);
        }
      }
      if !(ti >= 0 && e >= 0) {
        break;
      }
    }
    assert list + [] == list;
  }

  /**
   * `getCq` / `getMq` after the index check: the same walk, counting the
   * tokens and stopping at the `index`-th.
   */
  method NthToken(text: string, head: string, index: nat) returns (r: Option<string>)
    requires IsHead(head)
    ensures var toks := Tokens(text, head, 0);
      r == if index < |toks| then Some(toks[index]) else None
  {
    var ti, e, i := TokenStep(text, head, 0, -1);
    ghost var whole := Tokens(text, head, 0);
    ghost var seen: seq<string> := if i == 0 then [text[ti..e + 1]] else [];
    while ti >= 0 && i < index
      invariant 0 <= e <= |text| && |seen| == i + 1 && i <= index
      invariant ti >= 0 ==> seen + Tokens(text, head, e) == whole
      invariant ti < 0 ==> seen == whole
      invariant i == index ==> 0 <= ti < e < |text| && seen[i] == text[ti..e + 1]
      decreases if ti < 0 then 0 else |text| + 1 - e
    {
      var i0 := i;
      ti, e, i := TokenStep(text, head, e, i);
      if i == i0 + 1 {
        AppendShift(seen, text[ti..e + 1], Tokens(text, head, e), whole);
        seen := seen + [text[ti..e + 1]];
      }
    }
    if i == index {
      PrefixAt(seen, Tokens(text, head, e), whole, index);
      r := Some(text[ti..e + 1]);
    } else {
      r := None;
    }
  }

  /**
   * One pass of `getCq`'s search from `e0`: the next head, and the `]` after
   * it, counted when there is one; past a head without one, the search
   * moves one character on.
   */
  method TokenStep(text: string, head: string, e0: int, i0: int) returns (ti: int, e: int, i: int)
    requires IsHead(head) && 0 <= e0 <= |text|
    ensures ti == IndexOf(text, head, e0) && 0 <= e <= |text|
    ensures ti < 0 ==> Tokens(text, head, e0) == [] && e == e0 && i == i0
    ensures ti >= 0 && i == i0 ==> e == ti + 1 && Tokens(text, head, e0) == Tokens(text, head, e)
    ensures ti >= 0 && i != i0 ==>
      i == i0 + 1 && ti < e < |text| && Tokens(text, head, e0) == [text[ti..e + 1]] + Tokens(text, head, e)
  {
    ti := IndexOf(text, head, e0);
    TokensStep(text, head, e0);
    e := e0;
    i := i0;
    if ti >= 0 {
      e := FindChar(text, ']', ti);
      if e >= 0 {
        i := i + 1;
      } else {
        e := ti + 1;
      }
    }
  }

  /**
   * The heads at or after `from` that have a `]` after them, each paired
   * with the index of the first such `]`. Unlike `Tokens`, the search resumes
   * one character after each head, so heads nested inside a code count too.
   */
  function TerminatedHeads(text: string, head: string, from: nat): (r: seq<(int, int)>)
    requires IsHead(head)
    ensures forall k :: 0 <= k < |r| ==> from <= r[k].0 <= r[k].1 < |text|
    decreases |text| - from
  {
    var h := IndexOf(text, head, from);
    if h < 0 then []
    else
      var e := FindChar(text, ']', h);
      (if e < 0 then [] else [(h, e)]) + TerminatedHeads(text, head, h + 1)
  }

  /** Each pair is a head and the first `]` after it. */
  lemma {:induction false} TerminatedHeadsSound(text: string, head: string, from: nat)
    requires IsHead(head)
    ensures forall k :: 0 <= k < |TerminatedHeads(text, head, from)| ==>
      Occurs(text, head, TerminatedHeads(text, head, from)[k].0)
      && FindChar(text, ']', TerminatedHeads(text, head, from)[k].0) == TerminatedHeads(text, head, from)[k].1
    decreases |text| - from
  {
    var h := IndexOf(text, head, from);
    if h >= 0 {
      IndexOfFound(text, head, from);
      TerminatedHeadsSound(text, head, h + 1);
      var r := TerminatedHeads(text, head, from);
      var rest := TerminatedHeads(text, head, h + 1);
      var e := FindChar(text, ']', h);
      if e >= 0 {
        assert r == [(h, e)] + rest;
        forall k | 0 <= k < |r| ensures Occurs(text, head, r[k].0) && FindChar(text, ']', r[k].0) == r[k].1 {
          if k > 0 {
            assert r[k] == rest[k - 1];
          }
        }
      } else {
        assert r == rest;
      }
    }
  }

  /** The heads are listed left to right. */
  lemma {:induction false} TerminatedHeadsOrdered(text: string, head: string, from: nat)
    requires IsHead(head)
    ensures forall k :: 0 <= k < |TerminatedHeads(text, head, from)| - 1 ==>
      TerminatedHeads(text, head, from)[k].0 < TerminatedHeads(text, head, from)[k + 1].0
    decreases |text| - from
  {
    var h := IndexOf(text, head, from);
    if h >= 0 {
      TerminatedHeadsOrdered(text, head, h + 1);
      var e := FindChar(text, ']', h);
      if e >= 0 {
        TerminatedHeadsHit(text, head, from, h, e);
        AscendingCons(h, e, TerminatedHeads(text, head, h + 1));
      } else {
        TerminatedHeadsMiss(text, head, from, h, e);
      }
    }
  }

  /** A pair before pairs that all start later keeps them in ascending order. */
  lemma AscendingCons(h: int, e: int, rest: seq<(int, int)>)
    requires forall k :: 0 <= k < |rest| ==> h < rest[k].0
    requires forall k :: 0 <= k < |rest| - 1 ==> rest[k].0 < rest[k + 1].0
    ensures var r := [(h, e)] + rest; forall k :: 0 <= k < |r| - 1 ==> r[k].0 < r[k + 1].0
  {
    var r := [(h, e)] + rest;
    forall k | 0 <= k < |r| - 1 ensures r[k].0 < r[k + 1].0 {
      assert r[k + 1] == rest[k];
      if k > 0 {
        assert r[k] == rest[k - 1];
      }
    }
  }

  /** The step of the terminated-head walk at a head closed by the `]` at `e`. */
  lemma TerminatedHeadsHit(text: string, head: string, pos: nat, h: int, e: int)
    requires IsHead(head) && h == IndexOf(text, head, pos) >= 0 && e == FindChar(text, ']', h) >= 0
    ensures TerminatedHeads(text, head, pos) == [(h, e)] + TerminatedHeads(text, head, h + 1)
  {
  }

  /** The step of the terminated-head walk at a head with no `]` after it. */
  lemma TerminatedHeadsMiss(text: string, head: string, pos: nat, h: int, e: int)
    requires IsHead(head) && h == IndexOf(text, head, pos) >= 0 && e == FindChar(text, ']', h) < 0
    ensures TerminatedHeads(text, head, pos) == TerminatedHeads(text, head, h + 1)
  {
    assert [] + TerminatedHeads(text, head, h + 1) == TerminatedHeads(text, head, h + 1);
  }

  /** Every head at or after `from` that has a `]` after it is listed. */
  lemma {:induction false} TerminatedHeadsComplete(text: string, head: string, from: nat, i: int)
    requires IsHead(head) && from <= i && Occurs(text, head, i) && FindChar(text, ']', i) >= 0
    ensures exists k :: 0 <= k < |TerminatedHeads(text, head, from)| && TerminatedHeads(text, head, from)[k].0 == i
    decreases |text| - from
  {
    var h := IndexOf(text, head, from);
    IndexOfFirst(text, head, from);
    var r := TerminatedHeads(text, head, from);
    if i == h {
      assert r[0].0 == i;
    } else {
      TerminatedHeadsComplete(text, head, h + 1, i);
      var rest := TerminatedHeads(text, head, h + 1);
      var k :| 0 <= k < |rest| && rest[k].0 == i;
      var n := |r| - |rest|;
      assert r[k + n] == rest[k];
    }
  }

  /**
   * The parameter lookup of `getParam` and `FastKQCode.getParam`: the raw
   * slice after the first `",key="` at or after `from`, up to the next `,`
   * or to `end`, whichever comes first.
   */
  function ParamAt(text: string, key: string, from: int, end: int): Option<string>
    requires end < |text|
  {
    var pf := "," + key + "=";
    var phi := IndexOf(text, pf, from);
    if phi < 0 then None
    else
      var st := phi + |pf|;
      var c := FindChar(text, ',', st);
      var pei := if c < 0 || c > end then end else c;
      if st > |text| - 1 || st > pei then None
      else Some(text[st..pei])
  }

  /**
   * A value is found exactly when the first `",key="` ends at or before
   * `end`; it is then the text from there up to the next `,` or to `end`,
   * and holds no `,`.
   */
  lemma ParamAtSpec(text: string, key: string, from: int, end: int)
    requires end < |text|
    ensures var pf := "," + key + "="; var phi := IndexOf(text, pf, from); var st := phi + |pf|;
      var r := ParamAt(text, key, from, end);
      (r.Some? <==> phi >= 0 && st <= end)
      && (r.Some? ==>
        st + |r.value| <= end && text[st..st + |r.value|] == r.value && ',' !in r.value
        && (st + |r.value| == end || text[st + |r.value|] == ','))
  {
    var pf := "," + key + "=";
    var phi := IndexOf(text, pf, from);
    var r := ParamAt(text, key, from, end);
    if phi >= 0 {
      var st := phi + |pf|;
      var c := FindChar(text, ',', st);
      FindCharFirst(text, ',', st);
      if r.Some? {
        var pei := if c < 0 || c > end then end else c;
        assert r.value == text[st..pei];
        forall j | 0 <= j < |r.value| ensures r.value[j] != ',' {
          assert r.value[j] == text[st + j];
        }
      }
    }
  }

  /**
   * `getParam`'s walk: find the `index`-th terminated head, then look the
   * key up from that head to that head's `]`.
   */
  method NthParam(text: string, head: string, key: string, index: int) returns (r: Option<string>)
    requires IsHead(head)
    ensures var th := TerminatedHeads(text, head, 0);
      r == if 0 <= index < |th| then ParamAt(text, key, th[index].0, th[index].1) else None
  {
    var from, end, i := HeadStep(text, head, -1, -1, -1);
    ghost var seen: seq<(int, int)> := if i == 0 then [(from, end)] else [];
    ghost var whole := TerminatedHeads(text, head, 0);
    while from >= 0 && i < index
      invariant -1 <= end < |text| && -1 <= from < |text| && |seen| == i + 1
      invariant from >= 0 ==> seen + TerminatedHeads(text, head, from + 1) == whole
      invariant from < 0 ==> seen == whole
      invariant i == -1 ==> end == -1
      invariant index >= 0 ==> i <= index
      invariant i == index >= 0 ==> from >= 0 && seen[i] == (from, end)
      decreases if from < 0 then 0 else |text| - from
    {
      ghost var pos := from + 1;
      var i0 := i;
      from, end, i := HeadStep(text, head, from, end, i);
      if i == i0 + 1 {
        AppendShift(seen, (from, end), TerminatedHeads(text, head, from + 1), whole);
        seen := seen + [(from, end)];
      }
    }
    if i == index {
      if index >= 0 {
        PrefixAt(seen, TerminatedHeads(text, head, from + 1), whole, index);
      } else {
        ParamAtSpec(text, key, from, end);
      }
      r := ParamAt(text, key, from, end);
    } else {
      r := None;
    }
  }

  /**
   * One pass of `getParam`'s search: the next head from `from + 1`, and the
   * `]` after it, counted when there is one.
   */
  method HeadStep(text: string, head: string, from0: int, end0: int, i0: int) returns (from: int, end: int, i: int)
    requires IsHead(head) && -1 <= from0 < |text| && -1 <= end0 < |text|
    ensures from == IndexOf(text, head, from0 + 1) && -1 <= end < |text|
    ensures i == i0 ==> end == end0 || end == -1
    ensures from < 0 ==> TerminatedHeads(text, head, from0 + 1) == [] && end == end0 && i == i0
    ensures from >= 0 && i == i0 ==> TerminatedHeads(text, head, from0 + 1) == TerminatedHeads(text, head, from + 1)
    ensures from >= 0 && i != i0 ==> i == i0 + 1 && TerminatedHeads(text, head, from0 + 1) == [(from, end)] + TerminatedHeads(text, head, from + 1)
  {
    from := IndexOf(text, head, from0 + 1);
    end := end0;
    i := i0;
    if from >= 0 {
      end := FindChar(text, ']', from);
      if end >= 0 {
        TerminatedHeadsHit(text, head, from0 + 1, from, end);
        i := i + 1;
      } else {
        TerminatedHeadsMiss(text, head, from0 + 1, from, end);
      }
    }
  }

  /**
   * `split`'s walk at the head found at `h` (or -1 when the search ran out),
   * the previous code (or the start of the text) having ended at `start`.
   * A head closed by a `]` yields the text since `start`, when that is not
   * empty, then the code, and the search goes on from that `]`; a head with
   * no `]` after it clears `tail` and the search goes on after it. When the
   * search runs out, the rest of the text is added only if the step before
   * found a code (`tail`) and something is left.
   */
  function SplitFrom(text: string, head: string, start: nat, h: int, tail: bool): seq<string>
    requires IsHead(head) && start <= |text| && h < |text|
    decreases if h < 0 then 0 else |text| + 1 - h
  {
    if h < 0 then (if tail && start < |text| then [text[start..]] else [])
    else
      var e := FindChar(text, ']', h);
      if e < 0 then SplitFrom(text, head, start, IndexOf(text, head, h + 1), false)
      else
        IndexOfPast(text, head, e);
        (if start < h then [text[start..h]] else []) + [text[h..e + 1]]
          + SplitFrom(text, head, e + 1, IndexOf(text, head, e), true)
  }

  /** What `split` returns: the walk's pieces, or the whole text when the walk found no code. */
  function SplitSpec(text: string, head: string): seq<string>
    requires IsHead(head)
  {
    var w := SplitFrom(text, head, 0, IndexOf(text, head, 0), false);
    if w == [] then [text] else w
  }

  /** A character that cannot start the pattern can be skipped by the search. */
  lemma IndexOfPast(s: string, p: string, i: nat)
    requires |p| > 0 && i < |s| && s[i] != p[0]
    ensures IndexOf(s, p, i) == IndexOf(s, p, i + 1)
  {
    assert !Occurs(s, p, i) by {
      if i + |p| <= |s| {
        assert s[i + 0] != p[0];
      }
    }
  }

  /** The pieces a step of `split` appends at a head `h` closed by `e`: the text since `start`, if any, then the code. */
  function Added(text: string, start: int, h: int, e: int): seq<string>
    requires 0 <= start <= h <= e < |text|
  {
    (if start < h then [text[start..h]] else []) + [text[h..e + 1]]
  }

  /** A step of the walk at a head with no `]` after it keeps what is left to do. */
  lemma SplitFromMiss(text: string, head: string, list: seq<string>, whole: seq<string>,
                      start: nat, h: int, tail: bool)
    requires IsHead(head) && start <= h < |text|
    requires FindChar(text, ']', h) < 0
    requires list + SplitFrom(text, head, start, h, tail) == whole
    ensures list + SplitFrom(text, head, start, IndexOf(text, head, h + 1), false) == whole
  {
  }

  /** A step of the walk at a head closed by the `]` at `e`: its pieces, then the rest of the walk. */
  lemma SplitFromStep(text: string, head: string, start: nat, h: int, tail: bool, e: int)
    requires IsHead(head) && start <= h < |text|
    requires e == FindChar(text, ']', h) >= 0
    ensures e + 1 <= IndexOf(text, head, e) || IndexOf(text, head, e) == -1
    ensures SplitFrom(text, head, start, h, tail)
      == Added(text, start, h, e) + SplitFrom(text, head, e + 1, IndexOf(text, head, e), true)
  {
    IndexOfPast(text, head, e);
  }

  /** The step above, carried over to the loop's accumulated list. */
  lemma SplitFromHit(text: string, head: string, list: seq<string>, whole: seq<string>,
                     start: nat, h: int, tail: bool, e: int)
    requires IsHead(head) && start <= h < |text|
    requires e == FindChar(text, ']', h) >= 0
    requires list + SplitFrom(text, head, start, h, tail) == whole
    ensures e + 1 <= IndexOf(text, head, e) || IndexOf(text, head, e) == -1
    ensures start < h ==>
      ((list + [text[start..h]]) + [text[h..e + 1]]) + SplitFrom(text, head, e + 1, IndexOf(text, head, e), true) == whole
    ensures start == h ==>
      (list + [text[h..e + 1]]) + SplitFrom(text, head, e + 1, IndexOf(text, head, e), true) == whole
  {
    SplitFromStep(text, head, start, h, tail, e);
    var rest := SplitFrom(text, head, e + 1, IndexOf(text, head, e), true);
    if start < h {
      assert (list + [text[start..h]]) + [text[h..e + 1]] == list + Added(text, start, h, e);
    } else {
      assert list + [text[h..e + 1]] == list + Added(text, start, h, e);
    }
    Associate(list, Added(text, start, h, e), rest);
  }

  /** `split`: one pass over the heads, remembering the end of the previous code in `le`. */
  method SplitText(text: string, head: string) returns (list: seq<string>)
    requires IsHead(head)
    ensures list == SplitSpec(text, head)
  {
    list := [];
    var h := IndexOf(text, head, 0);
    var le := -1;
    var e := -1;
    ghost var whole := SplitFrom(text, head, 0, h, false);
    ghost var start := 0;
    ghost var tail := false;
    while h >= 0
      invariant -1 <= le && -1 <= e < |text| && h < |text|
      invariant start == (if e != -1 then e + 1 else le + 1) && (tail <==> e != -1)
      invariant 0 <= start <= |text| && (h >= 0 ==> start <= h)
      invariant list + SplitFrom(text, head, start, h, tail) == whole
      invariant e != -1 ==> list != []
      decreases if h < 0 then 0 else |text| + 1 - h
    {
      if e != -1 {
        le := e;
      }
      e := FindChar(text, ']', h);
      if e < 0 {
        SplitFromMiss(text, head, list, whole, start, h, tail);
        h := IndexOf(text, head, h + 1);
        tail := false;
      } else {
        SplitFromHit(text, head, list, whole, start, h, tail, e);
        assert start == le + 1;
        if h > 0 && le + 1 != h {
          list := list + [text[le + 1..h]];
        }
        list := list + [text[h..e + 1]];
        h := IndexOf(text, head, e);
        start := e + 1;
        tail := true;
      }
    }
    if list == [] {
      list := list + [text];
    } else if e == -1 || e == |text| - 1 {
      assert list + [] == list;
    } else {
      assert text[e + 1..|text|] == text[e + 1..];
    }
    if e != |text| - 1 {
      if e >= 0 {
        list := list + [text[e + 1..|text|]];
      }
    }
  }

  /** Once a head has no `]` after it, no later head has one either, and the walk yields nothing more. */
  lemma {:induction false} SplitFromUnclosed(text: string, head: string, start: nat, h: int, tail: bool)
    requires IsHead(head) && start <= |text| && 0 <= h < |text| && FindChar(text, ']', h) < 0
    ensures SplitFrom(text, head, start, h, tail) == []
    decreases |text| + 1 - h
  {
    var next := IndexOf(text, head, h + 1);
    if next >= 0 {
      FindCharFirst(text, ']', h);
      FindCharFirst(text, ']', next);
      SplitFromUnclosed(text, head, start, next, false);
    }
  }

  /** The same for the token walk. */
  lemma {:induction false} TokensUnclosed(text: string, head: string, from: nat)
    requires IsHead(head) && IndexOf(text, head, from) >= 0
    requires FindChar(text, ']', IndexOf(text, head, from)) < 0
    ensures Tokens(text, head, from) == []
    decreases |text| - from
  {
    var h := IndexOf(text, head, from);
    var next := IndexOf(text, head, h + 1);
    TokensStep(text, head, from);
    if next >= 0 {
      FindCharFirst(text, ']', h);
      FindCharFirst(text, ']', next);
      TokensUnclosed(text, head, h + 1);
    } else {
      TokensStep(text, head, h + 1);
    }
  }

  /** A text in which no head is closed by a `]` comes back from `split` whole. */
  lemma SplitNoCode(text: string, head: string)
    requires IsHead(head)
    requires forall i :: Occurs(text, head, i) ==> FindChar(text, ']', i) < 0
    ensures SplitSpec(text, head) == [text]
  {
    var h := IndexOf(text, head, 0);
    IndexOfFound(text, head, 0);
    if h >= 0 {
      SplitFromUnclosed(text, head, 0, h, false);
    }
  }

  /** The walk yields no empty piece. */
  lemma {:induction false} SplitFromNonEmpty(text: string, head: string, start: nat, h: int, tail: bool)
    requires IsHead(head) && start <= |text| && h < |text| && (h >= 0 ==> start <= h)
    ensures forall k :: 0 <= k < |SplitFrom(text, head, start, h, tail)| ==> SplitFrom(text, head, start, h, tail)[k] != []
    decreases if h < 0 then 0 else |text| + 1 - h
  {
    if h >= 0 {
      var e := FindChar(text, ']', h);
      if e < 0 {
        SplitFromNonEmpty(text, head, start, IndexOf(text, head, h + 1), false);
      } else {
        IndexOfPast(text, head, e);
        var next := IndexOf(text, head, e);
        SplitFromNonEmpty(text, head, e + 1, next, true);
        var pieces := Added(text, start, h, e);
        var rest := SplitFrom(text, head, e + 1, next, true);
        assert SplitFrom(text, head, start, h, tail) == pieces + rest;
        assert forall k :: 0 <= k < |pieces| ==> pieces[k] != [];
      }
    }
  }

  /**
   * `split` never yields an empty piece, except the single piece of an empty
   * text; in particular two adjacent codes get no empty text between them.
   */
  lemma SplitNonEmpty(text: string, head: string)
    requires IsHead(head) && text != []
    ensures forall k :: 0 <= k < |SplitSpec(text, head)| ==> SplitSpec(text, head)[k] != []
  {
    SplitFromNonEmpty(text, head, 0, IndexOf(text, head, 0), false);
  }

  /**
   * The walk's pieces put back together give the text from `start` on, as long
   * as every head is closed by a `]`.
   */
  lemma {:induction false} SplitFromConcat(text: string, head: string, start: nat, h: int, tail: bool)
    requires IsHead(head) && start <= |text| && h < |text|
    requires forall i :: Occurs(text, head, i) ==> FindChar(text, ']', i) >= 0
    requires h >= 0 ==> Occurs(text, head, h) && start <= h
    requires h < 0 ==> tail || start == |text|
    ensures Concat(SplitFrom(text, head, start, h, tail)) == text[start..]
    decreases if h < 0 then 0 else |text| + 1 - h
  {
    if h < 0 {
      if tail && start < |text| {
        assert Concat([text[start..]]) == text[start..] + Concat([]);
      }
    } else {
      var e := FindChar(text, ']', h);
      var next := IndexOf(text, head, e);
      IndexOfPast(text, head, e);
      IndexOfFound(text, head, e);
      SplitFromConcat(text, head, e + 1, next, true);
      SplitConcatHit(text, head, start, h, tail, e);
    }
  }

  /** The pieces of one step put back together give the text they were cut from. */
  lemma ConcatAdded(text: string, start: int, h: int, e: int)
    requires 0 <= start <= h <= e < |text|
    ensures Concat(Added(text, start, h, e)) == text[start..e + 1]
  {
    var gap: seq<string> := if start < h then [text[start..h]] else [];
    ConcatAppend(gap, [text[h..e + 1]]);
    assert Concat(gap) == text[start..h] by {
      if start < h {
        assert Concat(gap) == text[start..h] + Concat([]);
      }
    }
    assert Concat([text[h..e + 1]]) == text[h..e + 1] + Concat([]);
    assert text[start..e + 1] == text[start..h] + text[h..e + 1];
  }

  /** One hit step of `SplitFromConcat`: the step's pieces cover the text up to its `]`. */
  lemma SplitConcatHit(text: string, head: string, start: nat, h: int, tail: bool, e: int)
    requires IsHead(head) && start <= h < |text|
    requires e == FindChar(text, ']', h) >= 0
    requires e + 1 <= IndexOf(text, head, e) || IndexOf(text, head, e) == -1
    requires Concat(SplitFrom(text, head, e + 1, IndexOf(text, head, e), true)) == text[e + 1..]
    ensures Concat(SplitFrom(text, head, start, h, tail)) == text[start..]
  {
    SplitFromStep(text, head, start, h, tail, e);
    ConcatAppend(Added(text, start, h, e), SplitFrom(text, head, e + 1, IndexOf(text, head, e), true));
    ConcatAdded(text, start, h, e);
    SuffixSplit(text, start, e + 1);
  }

  /**
   * When no head comes after the last `]` (every head is closed), the pieces
   * of `split` put back together give the text.
   */
  lemma SplitConcat(text: string, head: string)
    requires IsHead(head)
    requires forall i :: Occurs(text, head, i) ==> FindChar(text, ']', i) >= 0
    ensures Concat(SplitSpec(text, head)) == text
  {
    var h := IndexOf(text, head, 0);
    IndexOfFound(text, head, 0);
    if h >= 0 {
      SplitFromConcat(text, head, 0, h, false);
    }
    assert Concat([text]) == text + Concat([]);
  }

  /** The pieces that are codes, in order. */
  function Codes(head: string, pieces: seq<string>): (r: seq<string>)
    ensures |r| <= |pieces|
    decreases |pieces|
  {
    if pieces == [] then []
    else (if IsCode(head, pieces[0]) then [pieces[0]] else []) + Codes(head, pieces[1..])
  }

  lemma {:induction false} CodesAppend(head: string, a: seq<string>, b: seq<string>)
    ensures Codes(head, a + b) == Codes(head, a) + Codes(head, b)
    decreases |a|
  {
    if a != [] {
      assert (a + b)[1..] == a[1..] + b;
      CodesAppend(head, a[1..], b);
    } else {
      assert a + b == b;
    }
  }

  /** A code cut out of a text starts with an occurrence of the head. */
  lemma CodeOccurs(text: string, head: string, a: int, b: int)
    requires 0 <= a <= b <= |text| && IsCode(head, text[a..b])
    ensures Occurs(text, head, a)
  {
    forall j | 0 <= j < |head|
      ensures text[a + j] == head[j]
    {
      assert text[a..b][0 + j] == head[j];
    }
  }

  /** A stretch of text that does not start with the head is not a code. */
  lemma NotCodeAt(text: string, head: string, a: int, b: int)
    requires 0 <= a <= b <= |text| && !Occurs(text, head, a)
    ensures !IsCode(head, text[a..b])
  {
    if IsCode(head, text[a..b]) {
      CodeOccurs(text, head, a, b);
    }
  }

  /** The codes among one step's pieces: the gap, which does not start with the head, holds none. */
  lemma CodesAdded(text: string, head: string, start: int, h: int, e: int)
    requires 0 <= start <= h <= e < |text|
    requires start < h ==> !Occurs(text, head, start)
    requires IsCode(head, text[h..e + 1])
    ensures Codes(head, Added(text, start, h, e)) == [text[h..e + 1]]
  {
    var gap: seq<string> := if start < h then [text[start..h]] else [];
    CodesAppend(head, gap, [text[h..e + 1]]);
    assert Codes(head, gap) == [] by {
      if start < h {
        NotCodeAt(text, head, start, h);
        assert Codes(head, gap) == [] + Codes(head, []);
      }
    }
    assert Codes(head, [text[h..e + 1]]) == [text[h..e + 1]] + Codes(head, []);
  }

  /** The end of the walk: the rest of the text, which holds no head, is no code. */
  lemma SplitCodesEnd(text: string, head: string, start: nat, tail: bool, from: nat)
    requires IsHead(head) && start <= |text| && IndexOf(text, head, from) < 0
    requires start < |text| ==> !Occurs(text, head, start)
    ensures Codes(head, SplitFrom(text, head, start, IndexOf(text, head, from), tail)) == Tokens(text, head, from)
  {
    if tail && start < |text| {
      NotCodeAt(text, head, start, |text|);
      assert Codes(head, [text[start..]]) == [] + Codes(head, []);
    }
  }

  /** Past a `]`, the next head is the first one after it. */
  lemma NextHead(text: string, head: string, e: int) returns (next: int)
    requires IsHead(head) && ']' !in head && 0 <= e < |text| && text[e] == ']'
    ensures next == IndexOf(text, head, e) && next < |text| && (next >= 0 ==> e + 1 <= next)
    ensures forall i {:trigger Occurs(text, head, i)} :: e + 1 <= i && (next < 0 || i < next) ==> !Occurs(text, head, i)
  {
    next := IndexOf(text, head, e);
    IndexOfPast(text, head, e);
    IndexOfFirst(text, head, e + 1);
  }

  /** One hit step of `SplitFromCodes`: the step's code is the next token. */
  lemma SplitCodesHit(text: string, head: string, start: nat, h: int, tail: bool, from: nat, e: int)
    requires IsHead(head) && ']' !in head && start <= h < |text|
    requires h == IndexOf(text, head, from) && e == FindChar(text, ']', h) >= 0
    requires start < h ==> !Occurs(text, head, start)
    requires e + 1 <= IndexOf(text, head, e) || IndexOf(text, head, e) == -1
    requires Codes(head, SplitFrom(text, head, e + 1, IndexOf(text, head, e), true)) == Tokens(text, head, e)
    ensures Codes(head, SplitFrom(text, head, start, h, tail)) == Tokens(text, head, from)
  {
    TokensHit(text, head, from, h, e);
    CodeAt(text, head, from, h, e);
    SplitFromStep(text, head, start, h, tail, e);
    CodesAppend(head, Added(text, start, h, e), SplitFrom(text, head, e + 1, IndexOf(text, head, e), true));
    CodesAdded(text, head, start, h, e);
  }

  /**
   * The codes among the walk's pieces are the tokens the token walk finds:
   * the text between codes never starts with the head.
   */
  lemma {:induction false} SplitFromCodes(text: string, head: string, start: nat, h: int, tail: bool, from: nat)
    requires IsHead(head) && ']' !in head && start <= |text| && h < |text|
    requires h == IndexOf(text, head, from)
    requires h >= 0 ==> start <= h
    requires forall i {:trigger Occurs(text, head, i)} :: start <= i && (h < 0 || i < h) ==> !Occurs(text, head, i)
    ensures Codes(head, SplitFrom(text, head, start, h, tail)) == Tokens(text, head, from)
    decreases if h < 0 then 0 else |text| + 1 - h
  {
    if h < 0 {
      SplitCodesEnd(text, head, start, tail, from);
    } else {
      var e := FindChar(text, ']', h);
      if e < 0 {
        SplitFromUnclosed(text, head, start, h, tail);
        TokensUnclosed(text, head, from);
      } else {
        var next := NextHead(text, head, e);
        SplitFromCodes(text, head, e + 1, next, true, e);
        SplitCodesHit(text, head, start, h, tail, from, e);
      }
    }
  }

  /** A text that is itself a code holds a token. */
  lemma NoTokenNoCode(text: string, head: string)
    requires IsHead(head)
    ensures Tokens(text, head, 0) == [] ==> !IsCode(head, text)
  {
    if IsCode(head, text) {
      assert text[0..|text|] == text;
      CodeOccurs(text, head, 0, |text|);
      FindCharFirst(text, ']', 0);
      TokensStep(text, head, 0);
    }
  }

  /**
   * The code pieces of `split` are exactly the tokens `getCqs` finds: each runs
   * from a head to the first `]` after it, and the text pieces hold no code.
   */
  lemma SplitCodes(text: string, head: string)
    requires IsHead(head) && ']' !in head
    ensures Codes(head, SplitSpec(text, head)) == Tokens(text, head, 0)
  {
    var h := IndexOf(text, head, 0);
    IndexOfFirst(text, head, 0);
    SplitFromCodes(text, head, 0, h, false, 0);
    if SplitFrom(text, head, 0, h, false) == [] {
      NoTokenNoCode(text, head);
      assert Codes(head, [text]) == (if IsCode(head, text) then [text] else []) + Codes(head, []);
    }
  }

  lemma Associate<T>(a: seq<T>, b: seq<T>, c: seq<T>)
    ensures (a + b) + c == a + (b + c)
  {
  }
}
