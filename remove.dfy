/**
 * `removeCode` of `KQCodeUtils` and of `MQCodeUtils`: the walk that cuts
 * the codes out of a message and joins the text left between them.
 *
 * The walk is split in two. `Pieces` lists the raw text fragments the loop
 * cuts out, in order (or the exception it runs into); `Assemble` is what the
 * `StringBuilder` makes of them: each fragment is trimmed when `trim` is set,
 * dropped when blank and `ignoreEmpty` is set, and the delimiter goes before
 * a kept fragment once the builder holds something.
 */
module Removal {
  import opened Text
  import opened Results

  /** What the builder holds after offering it one more fragment. */
  function Emit(sb: string, sub: string, trim: bool, ignoreEmpty: bool, delimiter: string): string {
    if !ignoreEmpty || !IsBlank(sub) then
      (if sb != [] then sb + delimiter else sb) + (if trim then Trim(sub) else sub)
    else sb
  }

  /** The builder after offering it every fragment, left to right. */
  function Assemble(pieces: seq<string>, trim: bool, ignoreEmpty: bool, delimiter: string): string
    decreases |pieces|
  {
    if pieces == [] then ""
    else Emit(Assemble(pieces[..|pieces| - 1], trim, ignoreEmpty, delimiter),
              pieces[|pieces| - 1], trim, ignoreEmpty, delimiter)
  }

  /**
   * The text after the last removed code: `substring(sps + 1)` unless `sps`
   * is the last index. When no code was removed `sps` is still 0, and this
   * drops the first character of the text.
   */
  function Tail(text: string, sps: nat): seq<string>
    requires sps < |text|
  {
    if sps != |text| - 1 then [text[sps + 1..]] else []
  }

  /** The tail as intended: the whole text when no code was removed. */
  function TailIntended(text: string, sps: nat): seq<string>
    requires sps < |text|
  {
    if sps == 0 then [text] else Tail(text, sps)
  }

  /** Fragments of `text`, each given by its first index and the index past its end. */
  predicate Spans(text: string, sp: seq<(int, int)>) {
    forall k :: 0 <= k < |sp| ==> 0 <= sp[k].0 <= sp[k].1 <= |text|
  }

  /** The text of each fragment. */
  function Slices(text: string, sp: seq<(int, int)>): (r: seq<string>)
    requires Spans(text, sp)
    ensures |r| == |sp|
    decreases |sp|
  {
    if sp == [] then []
    else Slices(text, sp[..|sp| - 1]) + [text[sp[|sp| - 1].0..sp[|sp| - 1].1]]
  }

  /** A fragment in front of the fragments of a run that may have failed. */
  function Prepend(piece: (int, int), r: Result<(seq<(int, int)>, nat)>): Result<(seq<(int, int)>, nat)> {
    match r
    case Ok((rest, sps)) => Ok(([piece] + rest, sps))
    case Err(e) => Err(e)
  }

  /** The fragments already cut, in front of the fragments still to come. */
  function Then(done: seq<(int, int)>, r: Result<(seq<(int, int)>, nat)>): Result<(seq<(int, int)>, nat)> {
    match r
    case Ok((rest, sps)) => Ok((done + rest, sps))
    case Err(e) => Err(e)
  }

  /** Where the kept text resumes after `sps`: one past the `]`, or the start. */
  function Resume(sps: nat): nat {
    if sps > 0 then sps + 1 else 0
  }

  /**
   * What one iteration of the loop does: fail, stop, or go on with new
   * values of `hi`, `ei` and `sps`, having cut the fragment between two
   * indices or not.
   */
  datatype Move = Abort | Stop | Go(hi: int, ei: int, sps: nat, cut: Option<(int, int)>)

  /**
   * One iteration from `hi`, `ei` and `sps`. It searches for the head from
   * `hi + 1` and reads the character after it (an error when the head ends
   * the text). With a type, a head followed by a character outside `stops`
   * is skipped, and the loop then goes on only if the previous `]` search
   * succeeded. Otherwise the first `]` after the head closes a code; a later
   * head before that `]` takes the place of this one, and the text from the
   * previous `]` (one past it, except at the start) up to the head is cut.
   */
  function NextMove(text: string, head: string, stops: set<char>, typed: bool, hi: int, ei: int, sps: nat): (m: Move)
    requires |head| > 0 && |text| > |head| && -1 <= hi < |text| && sps < |text|
    ensures m.Go? ==> hi < m.hi < |text| && m.sps < |text|
    ensures m.Go? && m.cut.Some? ==> 0 <= m.cut.value.0 <= m.cut.value.1 <= |text|
  {
    var h := IndexOf(text, head, hi + 1);
    if h + |head| >= |text| then Abort
    else if typed && text[h + |head|] !in stops then
      (if h >= 0 && ei > 0 then Go(h, ei, sps, None) else Stop)
    else if h < 0 then Stop
    else
      var e := FindChar(text, ']', h);
      if e <= 0 then Stop
      else
        var nh := IndexOf(text, head, h + 1);
        var h2 := if 0 <= nh < e then nh else h;
        if h2 > 0 then
          var s := if sps > 0 then sps + 1 else sps;
          if s > h2 then Abort else Go(h2, e, e, Some((s, h2)))
        else Go(h2, e, e, None)
  }

  /**
   * The fragments the loop cuts from `hi`, `ei` and `sps` on, with the
   * value of `sps` when it stops, or the exception it runs into.
   */
  function Cuts(text: string, head: string, stops: set<char>, typed: bool, hi: int, ei: int, sps: nat)
    : (r: Result<(seq<(int, int)>, nat)>)
    requires |head| > 0 && |text| > |head| && -1 <= hi < |text| && sps < |text|
    ensures r.Ok? ==> r.value.1 < |text| && Spans(text, r.value.0)
    ensures r.Err? ==> r.error == StringIndexOutOfBounds
    decreases |text| - hi
  {
    match NextMove(text, head, stops, typed, hi, ei, sps)
    case Abort => Err(StringIndexOutOfBounds)
    case Stop => Ok(([], sps))
    case Go(h, e, s, cut) =>
      var rest := Cuts(text, head, stops, typed, h, e, s);
      if cut.Some? then Prepend(cut.value, rest) else rest
  }

  /** `removeCode` as written: the loop from its initial state, the tail, then the builder. */
  function Removed(text: string, head: string, stops: set<char>, typed: bool,
                   trim: bool, ignoreEmpty: bool, delimiter: string): Result<string>
    requires |head| > 0 && |text| > |head|
  {
    match Cuts(text, head, stops, typed, -1, -1, 0)
    case Ok((pieces, sps)) => Ok(Assemble(Slices(text, pieces) + Tail(text, sps), trim, ignoreEmpty, delimiter))
    case Err(e) => Err(e)
  }

  /** `removeCode` with the tail as intended. */
  function RemovedIntended(text: string, head: string, stops: set<char>, typed: bool,
                           trim: bool, ignoreEmpty: bool, delimiter: string): Result<string>
    requires |head| > 0 && |text| > |head|
  {
    match Cuts(text, head, stops, typed, -1, -1, 0)
    case Ok((pieces, sps)) => Ok(Assemble(Slices(text, pieces) + TailIntended(text, sps), trim, ignoreEmpty, delimiter))
    case Err(e) => Err(e)
  }

  /** The characters that may follow `"[CQ:" + type` in a typed removal. */
  const CqStops: set<char> := {',', ']'}

  /** The character that must follow `"[mirai:" + type` in a typed removal. */
  const MqStops: set<char> := {']'}

  /**
   * `KQCodeUtils.removeCode`: empty text, text shorter than the head and
   * `]`, and text without the head come back unchanged; otherwise the walk
   * as written, `substring(sps + 1)` tail included.
   */
  function RemoveCq(codeType: string, text: string, trim: bool, ignoreEmpty: bool, delimiter: string): Result<string> {
    var head := "[CQ:" + codeType;
    if text == [] || |text| < |head| + 1 || !Contains(text, head) then Ok(text)
    else Removed(text, head, CqStops, codeType != [], trim, ignoreEmpty, delimiter)
  }

  /**
   * `MQCodeUtils.removeCode`: null gives null; empty and too short text come
   * back unchanged; there is no check that the head occurs at all, so the
   * walk as written runs on every longer text.
   */
  function RemoveMq(codeType: string, text: Option<string>, trim: bool, ignoreEmpty: bool, delimiter: string)
    : Result<Option<string>>
  {
    var head := "[mirai:" + codeType;
    match text
    case None => Ok(None)
    case Some(t) =>
      if t == [] || |t| < |head| + 1 then Ok(Some(t))
      else
        match Removed(t, head, MqStops, codeType != [], trim, ignoreEmpty, delimiter)
        case Ok(s) => Ok(Some(s))
        case Err(e) => Err(e)
  }

  lemma AssembleSnoc(pieces: seq<string>, p: string, trim: bool, ignoreEmpty: bool, delimiter: string)
    ensures Assemble(pieces + [p], trim, ignoreEmpty, delimiter)
         == Emit(Assemble(pieces, trim, ignoreEmpty, delimiter), p, trim, ignoreEmpty, delimiter)
  {
    assert (pieces + [p])[..|pieces|] == pieces;
  }

  lemma SlicesSnoc(text: string, sp: seq<(int, int)>, x: (int, int))
    requires Spans(text, sp) && 0 <= x.0 <= x.1 <= |text|
    ensures Spans(text, sp + [x])
    ensures Slices(text, sp + [x]) == Slices(text, sp) + [text[x.0..x.1]]
  {
    assert (sp + [x])[..|sp|] == sp;
  }

  lemma ThenNothing(r: Result<(seq<(int, int)>, nat)>)
    ensures Then([], r) == r
  {
    if r.Ok? {
      assert [] + r.value.0 == r.value.0;
    }
  }

  lemma ThenPrepend(done: seq<(int, int)>, piece: (int, int), r: Result<(seq<(int, int)>, nat)>)
    ensures Then(done, Prepend(piece, r)) == Then(done + [piece], r)
  {
    if r.Ok? {
      assert done + ([piece] + r.value.0) == (done + [piece]) + r.value.0;
    }
  }

  /** `Removed` and `RemovedIntended` from the outcome of the walk. */
  lemma RemovedOf(text: string, head: string, stops: set<char>, typed: bool,
                  trim: bool, ignoreEmpty: bool, delimiter: string)
    requires |head| > 0 && |text| > |head|
    ensures var w := Cuts(text, head, stops, typed, -1, -1, 0);
      RemovedIntended(text, head, stops, typed, trim, ignoreEmpty, delimiter)
      == if w.Ok? then Ok(Assemble(Slices(text, w.value.0) + TailIntended(text, w.value.1), trim, ignoreEmpty, delimiter))
         else Err(StringIndexOutOfBounds)
    ensures var w := Cuts(text, head, stops, typed, -1, -1, 0);
      Removed(text, head, stops, typed, trim, ignoreEmpty, delimiter)
      == if w.Ok? then Ok(Assemble(Slices(text, w.value.0) + Tail(text, w.value.1), trim, ignoreEmpty, delimiter))
         else Err(StringIndexOutOfBounds)
  {
  }

  /**
   * The body of the loop of both `removeCode`s: the searches from `hi`, `ei`
   * and `sps`, and what the loop does next.
   */
  method Step(text: string, head: string, stops: set<char>, typed: bool, hi: int, ei: int, sps: nat)
    returns (m: Move)
    requires |head| > 0 && |text| > |head| && -1 <= hi < |text| && sps < |text|
    ensures m == NextMove(text, head, stops, typed, hi, ei, sps)
  {
    var h := hi + 1;
    h := IndexOf(text, head, h);
    if h + |head| >= |text| {
      return Abort;
    }
    var next := text[h + |head|];
    if typed && next !in stops {
      if !(h >= 0 && ei > 0) {
        return Stop;
      }
      return Go(h, ei, sps, None);
    }
    if h < 0 {
      return Stop;
    }
    var e := FindChar(text, ']', h);
    if e <= 0 {
      return Stop;
    }
    var nextHi := IndexOf(text, head, h + 1);
    if 0 <= nextHi < e {
      h := nextHi;
    }
    if h > 0 {
      var s := sps;
      if s > 0 {
        s := s + 1;
      }
      if s > h {
        return Abort;
      }
      return Go(h, e, e, Some((s, h)));
    }
    return Go(h, e, e, None);
  }

  /**
   * The shared loop of both `removeCode`s, after the early returns:
   * `head` is the code head, `stops` the characters a typed match must be
   * followed by.
   */
  method RemoveLoop(text: string, head: string, stops: set<char>, typed: bool,
                    trim: bool, ignoreEmpty: bool, delimiter: string) returns (r: Result<string>)
    requires |head| > 0 && |text| > |head|
    ensures r == Removed(text, head, stops, typed, trim, ignoreEmpty, delimiter)
  {
    var sb := "";
    var hi := -1;
    var ei := -1;
    var sps := 0;
    ghost var done: seq<(int, int)> := [];
    ghost var whole := Cuts(text, head, stops, typed, -1, -1, 0);
    ThenNothing(whole);
    while true
      invariant -1 <= hi < |text| && 0 <= sps < |text|
      invariant Then(done, Cuts(text, head, stops, typed, hi, ei, sps)) == whole
      invariant Spans(text, done)
      invariant sb == Assemble(Slices(text, done), trim, ignoreEmpty, delimiter)
      decreases |text| - hi
    {
      var m := Step(text, head, stops, typed, hi, ei, sps);
      match m
      case Abort =>
        RemovedOf(text, head, stops, typed, trim, ignoreEmpty, delimiter);
        return Err(StringIndexOutOfBounds);
      case Stop =>
        assert done + [] == done;
        break;
      case Go(h, e, s, cut) =>
        if cut.Some? {
          var sub := text[cut.value.0..cut.value.1];
          ThenPrepend(done, cut.value, Cuts(text, head, stops, typed, h, e, s));
          AssembleSnoc(Slices(text, done), sub, trim, ignoreEmpty, delimiter);
          SlicesSnoc(text, done, cut.value);
          sb := Emit(sb, sub, trim, ignoreEmpty, delimiter);
          done := done + [cut.value];
        }
        hi, ei, sps := h, e, s;
    }
    assert whole == Ok((done, sps));
    RemovedOf(text, head, stops, typed, trim, ignoreEmpty, delimiter);
    sb := EmitTail(text, done, sps, sb, trim, ignoreEmpty, delimiter);
    r := Ok(sb);
  }

  /**
   * After the loop: the text after `sps`, unless `sps` is the last index,
   * joins the builder. When nothing was removed `sps` is still 0, so the
   * first character is left out.
   */
  method EmitTail(text: string, ghost done: seq<(int, int)>, sps: nat, sb: string,
                  trim: bool, ignoreEmpty: bool, delimiter: string) returns (out: string)
    requires Spans(text, done) && sps < |text|
    requires sb == Assemble(Slices(text, done), trim, ignoreEmpty, delimiter)
    ensures out == Assemble(Slices(text, done) + Tail(text, sps), trim, ignoreEmpty, delimiter)
  {
    out := sb;
    if sps != |text| - 1 {
      var sub := text[sps + 1..];
      AssembleSnoc(Slices(text, done), sub, trim, ignoreEmpty, delimiter);
      out := Emit(out, sub, trim, ignoreEmpty, delimiter);
    } else {
      assert Slices(text, done) + Tail(text, sps) == Slices(text, done);
    }
  }

  /**
   * The shape of what the walk keeps, starting from `sps`: fragments in
   * order, none overlapping the next, each starting at `Resume(sps)` or
   * later, at the start of the text or right after a `]`, and ending right
   * where a head starts; the final `sps` is 0 or the index of a `]` after
   * all of them. So what lies between two kept fragments starts with the
   * head and ends with `]`.
   */
  predicate WellCut(text: string, head: string, sps: nat, sp: seq<(int, int)>, f: nat) {
    Spans(text, sp) && sps <= f < |text| && (f > 0 ==> text[f] == ']')
    && (forall k :: 0 <= k < |sp| ==>
          Resume(sps) <= sp[k].0 && (sp[k].0 == 0 || text[sp[k].0 - 1] == ']')
          && Occurs(text, head, sp[k].1) && sp[k].1 < f)
    && (forall k :: 0 <= k < |sp| - 1 ==> sp[k].1 < sp[k + 1].0)
  }

  /**
   * What an iteration that goes on leaves behind: `sps` unchanged without a
   * cut, or moved to the `]` that closes the code at the new `hi`; a cut
   * runs from `Resume(sps)` to a head.
   */
  lemma MoveFacts(text: string, head: string, stops: set<char>, typed: bool, hi: int, ei: int, sps: nat)
    requires |head| > 0 && |text| > |head| && -1 <= hi < |text| && sps < |text|
    ensures var m := NextMove(text, head, stops, typed, hi, ei, sps);
      m.Go? ==> (m.sps == sps && m.cut.None?) || (m.sps == m.ei && text[m.ei] == ']' && m.hi <= m.ei)
    ensures var m := NextMove(text, head, stops, typed, hi, ei, sps);
      m.Go? && m.cut.None? && m.sps != sps ==> hi == -1 && m.hi == 0
    ensures var m := NextMove(text, head, stops, typed, hi, ei, sps);
      m.Go? && m.cut.Some? ==> m.cut.value == (Resume(sps), m.hi) && Occurs(text, head, m.hi) && sps < m.ei
  {
    IndexOfFound(text, head, hi + 1);
    var h := IndexOf(text, head, hi + 1);
    if h >= 0 {
      IndexOfFound(text, head, h + 1);
    }
  }

  /** A fragment cut before a walk of that shape from the `]` that closes the code after it. */
  lemma WellCutCons(text: string, head: string, sps: nat, x: (int, int), e: nat, sp: seq<(int, int)>, f: nat)
    requires WellCut(text, head, e, sp, f) && e < |text| && text[e] == ']'
    requires x.0 == Resume(sps) && x.0 <= x.1 < e && sps < e && Occurs(text, head, x.1)
    requires sps > 0 ==> text[sps] == ']'
    ensures WellCut(text, head, sps, [x] + sp, f)
  {
    var all := [x] + sp;
    assert forall k :: 1 <= k < |all| ==> all[k] == sp[k - 1];
  }

  /** A walk of that shape from a later `sps` also has it from an earlier one. */
  lemma WellCutFrom(text: string, head: string, sps: nat, later: nat, sp: seq<(int, int)>, f: nat)
    requires WellCut(text, head, later, sp, f) && sps <= later && Resume(sps) <= Resume(later)
    ensures WellCut(text, head, sps, sp, f)
  {
  }

  lemma {:induction false} CutsShape(text: string, head: string, stops: set<char>, typed: bool, hi: int, ei: int, sps: nat)
    requires |head| > 0 && head[0] == '[' && |text| > |head| && -1 <= hi < |text| && sps < |text|
    requires sps > 0 ==> text[sps] == ']'
    requires hi < 0 ==> sps == 0
    ensures Cuts(text, head, stops, typed, hi, ei, sps).Ok? ==>
      WellCut(text, head, sps, Cuts(text, head, stops, typed, hi, ei, sps).value.0,
              Cuts(text, head, stops, typed, hi, ei, sps).value.1)
    decreases |text| - hi
  {
    var m := NextMove(text, head, stops, typed, hi, ei, sps);
    MoveFacts(text, head, stops, typed, hi, ei, sps);
    if m.Go? {
      var rest := Cuts(text, head, stops, typed, m.hi, m.ei, m.sps);
      CutsShape(text, head, stops, typed, m.hi, m.ei, m.sps);
      if rest.Ok? && m.sps != sps {
        if m.cut.Some? {
          assert text[m.hi] == '[';
          WellCutCons(text, head, sps, m.cut.value, m.ei, rest.value.0, rest.value.1);
        } else {
          WellCutFrom(text, head, sps, m.sps, rest.value.0, rest.value.1);
        }
      }
    }
  }

  /** The initial walk of `removeCode` has that shape. */
  lemma RemovalShape(text: string, head: string, stops: set<char>, typed: bool)
    requires |head| > 0 && head[0] == '[' && |text| > |head|
    ensures var w := Cuts(text, head, stops, typed, -1, -1, 0);
      w.Ok? ==> WellCut(text, head, 0, w.value.0, w.value.1)
  {
    CutsShape(text, head, stops, typed, -1, -1, 0);
  }

  /** The fragments that survive `ignoreEmpty`, trimmed when `trim` is set. */
  function Kept(pieces: seq<string>, trim: bool): (r: seq<string>)
    ensures |r| <= |pieces|
    decreases |pieces|
  {
    if pieces == [] then []
    else
      var k := Kept(pieces[..|pieces| - 1], trim);
      var p := pieces[|pieces| - 1];
      if IsBlank(p) then k else k + [if trim then Trim(p) else p]
  }

  /**
   * With `ignoreEmpty`, the builder is the kept fragments joined by the
   * delimiter: a delimiter goes only between two kept fragments.
   */
  lemma {:induction false} AssembleKept(pieces: seq<string>, trim: bool, delimiter: string)
    ensures Assemble(pieces, trim, true, delimiter) == Join(Kept(pieces, trim), delimiter)
    ensures Kept(pieces, trim) == [] <==> Assemble(pieces, trim, true, delimiter) == []
    decreases |pieces|
  {
    if pieces != [] {
      var init := pieces[..|pieces| - 1];
      var p := pieces[|pieces| - 1];
      AssembleKept(init, trim, delimiter);
      if !IsBlank(p) {
        var q := if trim then Trim(p) else p;
        if trim {
          TrimNotBlank(p);
        } else {
          assert p[0] in p;
        }
        var k := Kept(init, trim);
        assert (k + [q])[..|k|] == k;
      }
    }
  }

  /** With neither trimming nor dropping and no delimiter, the builder is the fragments written out. */
  lemma {:induction false} AssembleConcat(pieces: seq<string>)
    ensures Assemble(pieces, false, false, "") == Concat(pieces)
    decreases |pieces|
  {
    if pieces != [] {
      var init := pieces[..|pieces| - 1];
      AssembleConcat(init);
      ConcatAppend(init, [pieces[|pieces| - 1]]);
      assert init + [pieces[|pieces| - 1]] == pieces;
      assert Concat([pieces[|pieces| - 1]]) == pieces[|pieces| - 1] + Concat([]);
    }
  }

  /** Without any head in the text the walk stops at once, having cut nothing. */
  lemma NoHeadNoCut(text: string, head: string, stops: set<char>, typed: bool)
    requires |head| > 0 && |text| > |head|
    requires forall i :: !Occurs(text, head, i)
    ensures Cuts(text, head, stops, typed, -1, -1, 0) == Ok(([], 0))
  {
    IndexOfFound(text, head, 0);
  }

  /**
   * A walk that cuts nothing and leaves `sps` at 0: as written the text
   * loses its first character; as intended it is kept whole, up to the
   * trimming and dropping the caller asked for.
   */
  lemma NothingCut(text: string, head: string, stops: set<char>, typed: bool,
                   trim: bool, ignoreEmpty: bool, delimiter: string)
    requires |head| > 0 && |text| > |head|
    requires Cuts(text, head, stops, typed, -1, -1, 0) == Ok(([], 0))
    ensures RemovedIntended(text, head, stops, typed, trim, ignoreEmpty, delimiter)
         == Ok(if ignoreEmpty && IsBlank(text) then "" else if trim then Trim(text) else text)
    ensures Removed(text, head, stops, typed, false, false, "") == Ok(text[1..])
  {
    RemovedOf(text, head, stops, typed, trim, ignoreEmpty, delimiter);
    assert Slices(text, []) + TailIntended(text, 0) == [text];
    AssembleSnoc([], text, trim, ignoreEmpty, delimiter);
    assert [] + [text] == [text];
    var t := if trim then Trim(text) else text;
    assert "" + t == t;
    RemovedOf(text, head, stops, typed, false, false, "");
    assert Slices(text, []) + Tail(text, 0) == [text[1..]];
    AssembleSnoc([], text[1..], false, false, "");
    assert [] + [text[1..]] == [text[1..]];
    assert "" + text[1..] == text[1..];
  }

  /**
   * `removeCode` as intended leaves a text without codes as it is, up to
   * the trimming and dropping the caller asked for.
   */
  lemma RemovedIntendedNoHead(text: string, head: string, stops: set<char>, typed: bool,
                              trim: bool, ignoreEmpty: bool, delimiter: string)
    requires |head| > 0 && |text| > |head|
    requires forall i :: !Occurs(text, head, i)
    ensures RemovedIntended(text, head, stops, typed, trim, ignoreEmpty, delimiter)
         == Ok(if ignoreEmpty && IsBlank(text) then "" else if trim then Trim(text) else text)
  {
    NoHeadNoCut(text, head, stops, typed);
    NothingCut(text, head, stops, typed, trim, ignoreEmpty, delimiter);
  }

  /** As written, the same text loses its first character. */
  lemma RemovedDropsFirst(text: string, head: string, stops: set<char>, typed: bool)
    requires |head| > 0 && |text| > |head|
    requires forall i :: !Occurs(text, head, i)
    ensures Removed(text, head, stops, typed, false, false, "") == Ok(text[1..])
  {
    NoHeadNoCut(text, head, stops, typed);
    NothingCut(text, head, stops, typed, false, false, "");
  }

  /**
   * A text of at least eight characters without a mirai code: as written it
   * loses its first character, as intended it is unchanged.
   */
  lemma MiraiPlainText()
    ensures Removed("hello world", "[mirai:", MqStops, false, false, false, "") == Ok("ello world")
    ensures RemovedIntended("hello world", "[mirai:", MqStops, false, false, false, "") == Ok("hello world")
  {
    NoOccurrence("hello world", "[mirai:");
    RemovedDropsFirst("hello world", "[mirai:", MqStops, false);
    RemovedIntendedNoHead("hello world", "[mirai:", MqStops, false, false, false, "");
  }

  /**
   * A head that ends the text is read past: the character after it is
   * fetched before the search result is checked.
   */
  lemma HeadAtEndFails(w: string, head: string, stops: set<char>, typed: bool,
                       trim: bool, ignoreEmpty: bool, delimiter: string)
    requires |head| > 0 && |w| > 0
    requires forall i :: 0 <= i < |w| ==> !Occurs(w + head, head, i)
    ensures Removed(w + head, head, stops, typed, trim, ignoreEmpty, delimiter) == Err(StringIndexOutOfBounds)
    ensures RemovedIntended(w + head, head, stops, typed, trim, ignoreEmpty, delimiter) == Err(StringIndexOutOfBounds)
  {
    var text := w + head;
    assert Occurs(text, head, |w|);
    IndexOfIs(text, head, 0, |w|);
    RemovedOf(text, head, stops, typed, trim, ignoreEmpty, delimiter);
  }

  /**
   * A typed removal whose text starts with a head of a longer type (the
   * character after it is not a stop) stops at once: nothing is removed,
   * not even a code of the right type later in the text. As written the
   * first character is dropped; as intended the text is kept.
   */
  lemma TypedStopsAtLongerType(text: string, head: string, stops: set<char>)
    requires |head| > 0 && |text| > |head| && Occurs(text, head, 0) && text[|head|] !in stops
    ensures Removed(text, head, stops, true, false, false, "") == Ok(text[1..])
    ensures RemovedIntended(text, head, stops, true, false, false, "") == Ok(text)
  {
    IndexOfIs(text, head, 0, 0);
    assert Cuts(text, head, stops, true, -1, -1, 0) == Ok(([], 0));
    NothingCut(text, head, stops, true, false, false, "");
  }

  /**
   * A first head with no `]` after it: nothing is cut. As written the first
   * character is dropped; as intended the text is kept.
   */
  lemma UnclosedHeadDropsFirst(text: string, head: string, stops: set<char>, typed: bool)
    requires |head| > 0 && |text| > |head|
    requires var h := IndexOf(text, head, 0);
      h >= 0 && h + |head| < |text| && FindChar(text, ']', h) < 0 && (typed ==> text[h + |head|] in stops)
    ensures Removed(text, head, stops, typed, false, false, "") == Ok(text[1..])
    ensures RemovedIntended(text, head, stops, typed, false, false, "") == Ok(text)
  {
    assert Cuts(text, head, stops, typed, -1, -1, 0) == Ok(([], 0));
    NothingCut(text, head, stops, typed, false, false, "");
  }
}
