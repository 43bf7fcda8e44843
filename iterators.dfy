/**
 * The iterators of `kqIterators.kt`: a text iterator walking the codes of a
 * message, and cursor iterators walking the keys, values and key/value pairs
 * of one code string.
 *
 * Every iterator is a class whose fields are the source's cursor fields;
 * `hasNext` and `next` are proved against the specification functions of
 * the walks (`Scan.Tokens` for the text iterator, `Positions` for the
 * cursors).
 */
module KQIterators {
  import opened Text
  import opened Results
  import opened CQEscape
  import opened Scan
  import opened Grammar

  /**
   * The positions of `c` in `s` at or after `from`, in increasing order:
   * the separators a cursor still has in front of it.
   */
  function Positions(s: string, c: char, from: int): (r: seq<int>)
    ensures forall k :: 0 <= k < |r| ==> from <= r[k] && 0 <= r[k] < |s| && s[r[k]] == c
    ensures forall k :: 0 <= k < |r| - 1 ==> r[k] < r[k + 1]
    decreases |s| - from
  {
    var i := FindChar(s, c, from);
    if i < 0 then [] else [i] + Positions(s, c, i + 1)
  }

  /** A cursor visits every occurrence: the positions are as many as the occurrences. */
  lemma {:induction false} PositionsCount(s: string, c: char, from: int)
    requires 0 <= from <= |s|
    ensures |Positions(s, c, from)| == CountChar(s[from..], c)
    decreases |s| - from
  {
    var i := FindChar(s, c, from);
    FindCharFirst(s, c, from);
    if i < 0 {
      CountAbsent(s, c, from);
    } else {
      PositionsCount(s, c, i + 1);
      CountAt(s, c, from, i);
    }
  }

  /** No `c` from `from` on: none to count. */
  lemma CountAbsent(s: string, c: char, from: int)
    requires 0 <= from <= |s| && forall j :: from <= j < |s| ==> s[j] != c
    ensures CountChar(s[from..], c) == 0
  {
    var t := s[from..];
    forall j | 0 <= j < |t| ensures t[j] != c {
      assert t[j] == s[from + j];
    }
    CountNone(t, c);
  }

  /** The first `c` from `from` on is at `i`: it counts one, and the count goes on after it. */
  lemma CountAt(s: string, c: char, from: int, i: int)
    requires 0 <= from <= i < |s| && s[i] == c && forall j :: from <= j < i ==> s[j] != c
    ensures CountChar(s[from..], c) == 1 + CountChar(s[i + 1..], c)
  {
    var t := s[from..];
    assert t[i - from] == c;
    var u := t[..i - from];
    assert c !in u by {
      forall j | 0 <= j < |u| ensures u[j] != c {
        assert u[j] == s[from + j];
      }
    }
    CountSplit(t, c, i - from);
    assert t[i - from + 1..] == s[i + 1..];
  }

  /** Every occurrence at or after `from` is among the positions. */
  lemma {:induction false} PositionsComplete(s: string, c: char, from: int, j: int)
    requires from <= j && 0 <= j < |s| && s[j] == c
    ensures j in Positions(s, c, from)
    decreases |s| - from
  {
    var i := FindChar(s, c, from);
    FindCharFirst(s, c, from);
    if i != j {
      PositionsComplete(s, c, i + 1, j);
    }
  }

  /** Where a cursor at `index` resumes its search (`if (index == 0) 0 else index + 1`). */
  function Resume(index: int): int {
    if index == 0 then 0 else index + 1
  }

  /** `nextIndex()`: the next separator after the cursor, or -1. */
  function NextIndex(code: string, sep: char, index: int): int {
    FindChar(code, sep, Resume(index))
  }

  /** `BaseCqIterator.hasNext`. */
  predicate HasNextAt(code: string, sep: char, index: int) {
    index >= 0 && NextIndex(code, sep, index) > 0
  }

  /** A cursor is at the start, or on a separator inside the code. */
  predicate Cursor(code: string, sep: char, index: int) {
    index == 0 || (0 < index < |code| && code[index] == sep)
  }

  /**
   * `hasNext` is true exactly when a separator lies ahead, and `next`
   * moves the cursor onto the first one, leaving the rest ahead.
   */
  lemma CursorStep(code: string, sep: char, index: int)
    requires Framed(code) && sep != '[' && Cursor(code, sep, index)
    ensures HasNextAt(code, sep, index) <==> Positions(code, sep, Resume(index)) != []
    ensures HasNextAt(code, sep, index) ==>
      var n := NextIndex(code, sep, index);
      && index < n && Cursor(code, sep, n)
      && Positions(code, sep, Resume(n)) == Positions(code, sep, Resume(index))[1..]
      && n == Positions(code, sep, Resume(index))[0]
  {
    FramedEnds(code);
  }

  /** A key: the slice from after the `,` at `i` to the next `=`, wherever that is. */
  function KeyAt(code: string, i: int): (r: Result<string>)
    requires 0 <= i < |code| && code[i] == ','
    ensures r.Ok? <==> '=' in code[i..]
    ensures r.Ok? ==> i + 1 + |r.value| < |code| && code[i + 1 + |r.value|] == '='
    ensures r.Ok? ==> '=' !in r.value && r.value == code[i + 1..i + 1 + |r.value|]
    ensures r.Err? ==> r.error == StringIndexOutOfBounds
  {
    var nextKv := FindChar(code, '=', i);
    FindCharFirst(code, '=', i);
    if nextKv < 0 then
      assert '=' !in code[i..] by {
        forall j | 0 <= j < |code| - i ensures code[i..][j] != '=' {
          assert code[i..][j] == code[i + j];
        }
      }
      Err(StringIndexOutOfBounds)
    else
      assert code[i..][nextKv - i] == '=';
      var w := code[i + 1..nextKv];
      forall j | 0 <= j < |w| ensures w[j] != '=' {
        assert w[j] == code[i + 1 + j];
      }
      Ok(code[i + 1..nextKv])
  }

  /** The end of the field starting at `i`: the next `,` from `from`, or the closing `]`. */
  function FieldEnd(code: string, from: int): (r: int)
    requires 0 < |code|
    ensures from <= r || r == |code| - 1
    ensures 0 <= r < |code|
    ensures forall j :: from <= j < r && 0 <= j ==> code[j] != ','
  {
    var nextSplit := FindChar(code, ',', from);
    FindCharFirst(code, ',', from);
    if nextSplit < 0 then |code| - 1 else nextSplit
  }

  /** A value: `decodeParams` of the slice after the `=` at `i` up to the next `,` or `]`. */
  function ValueAt(code: string, i: int): (r: string)
    requires Framed(code) && 0 <= i < |code| && code[i] == '='
  {
    FramedEnds(code);
    DecodeParams(code[i + 1..FieldEnd(code, i)])
  }

  /**
   * A pair: the slice after the `,` at `i` up to the next `,` or `]`, split
   * on every `=`; the key is the first piece and the value the decoded second.
   */
  function PairAt(code: string, i: int): (r: Result<(string, string)>)
    requires Framed(code) && 0 <= i < |code| && code[i] == ','
    ensures r.Ok? <==> '=' in code[i + 1..FieldEnd(code, i + 1)]
    ensures r.Err? ==> r.error == IndexOutOfBounds
  {
    FramedEnds(code);
    var kv := SplitAll(code[i + 1..FieldEnd(code, i + 1)], '=');
    CountPositive(code[i + 1..FieldEnd(code, i + 1)], '=');
    if |kv| < 2 then Err(IndexOutOfBounds) else Ok((kv[0], DecodeParams(kv[1])))
  }

  lemma {:induction false} CountPositive(s: string, c: char)
    ensures CountChar(s, c) > 0 <==> c in s
  {
    if s != [] {
      CountPositive(s[1..], c);
      assert s == [s[0]] + s[1..];
    }
  }

  /** `CqParamKeyIterator`: one key per `,` of the code. */
  class KeyIterator {
    const code: string
    var index: int

    ghost predicate Valid()
      reads this
    {
      Framed(code) && Cursor(code, ',', index)
    }

    /** The `,` positions still ahead of the cursor. */
    function Ahead(): seq<int>
      reads this
    {
      Positions(code, ',', Resume(index))
    }

    constructor(code: string)
      requires Framed(code)
      ensures Valid() && this.code == code && index == 0
      ensures Ahead() == Positions(code, ',', 0)
    {
      this.code := code;
      index := 0;
    }

    /** The construction, failing as the source's `init` block does. */
    static method Open(code: string) returns (r: Result<KeyIterator>)
      ensures r.Ok? <==> Framed(code)
      ensures r.Err? ==> r.error == IllegalArgument
      ensures r.Ok? ==> fresh(r.value) && r.value.Valid() && r.value.code == code
      ensures r.Ok? ==> r.value.Ahead() == Positions(code, ',', 0)
    {
      if !Framed(code) {
        return Err(IllegalArgument);
      }
      var it := new KeyIterator(code);
      r := Ok(it);
    }

    function HasNext(): (b: bool)
      requires Valid()
      reads this
      ensures b <==> Ahead() != []
    {
      CursorStep(code, ',', index);
      HasNextAt(code, ',', index)
    }

    method Next() returns (r: Result<string>)
      requires Valid()
      modifies this
      ensures Valid()
      ensures old(Ahead()) == [] ==> r == Err(NoSuchElement) && index == old(index)
      ensures old(Ahead()) != [] ==>
        old(index) < index == old(Ahead())[0] && Ahead() == old(Ahead())[1..] && r == KeyAt(code, index)
    {
      if !HasNext() {
        return Err(NoSuchElement);
      }
      CursorStep(code, ',', index);
      index := NextIndex(code, ',', index);
      var nextKv := FindChar(code, '=', index);
      if nextKv < 0 {
        return Err(StringIndexOutOfBounds);
      }
      r := Ok(code[index + 1..nextKv]);
    }
  }

  /** `CqParamValueIterator`: one value per `=` of the code. */
  class ValueIterator {
    const code: string
    var index: int

    ghost predicate Valid()
      reads this
    {
      Framed(code) && Cursor(code, '=', index)
    }

    /** The `=` positions still ahead of the cursor. */
    function Ahead(): seq<int>
      reads this
    {
      Positions(code, '=', Resume(index))
    }

    constructor(code: string)
      requires Framed(code)
      ensures Valid() && this.code == code && index == 0
      ensures Ahead() == Positions(code, '=', 0)
    {
      this.code := code;
      index := 0;
    }

    static method Open(code: string) returns (r: Result<ValueIterator>)
      ensures r.Ok? <==> Framed(code)
      ensures r.Err? ==> r.error == IllegalArgument
      ensures r.Ok? ==> fresh(r.value) && r.value.Valid() && r.value.code == code
      ensures r.Ok? ==> r.value.Ahead() == Positions(code, '=', 0)
    {
      if !Framed(code) {
        return Err(IllegalArgument);
      }
      var it := new ValueIterator(code);
      r := Ok(it);
    }

    function HasNext(): (b: bool)
      requires Valid()
      reads this
      ensures b <==> Ahead() != []
    {
      CursorStep(code, '=', index);
      HasNextAt(code, '=', index)
    }

    method Next() returns (r: Result<string>)
      requires Valid()
      modifies this
      ensures Valid()
      ensures old(Ahead()) == [] ==> r == Err(NoSuchElement) && index == old(index)
      ensures old(Ahead()) != [] ==>
        old(index) < index == old(Ahead())[0] && Ahead() == old(Ahead())[1..] && r == Ok(ValueAt(code, index))
    {
      if !HasNext() {
        return Err(NoSuchElement);
      }
      CursorStep(code, '=', index);
      index := NextIndex(code, '=', index);
      var v := CutValue(code, index);
      r := Ok(v);
    }

    /** The body of `next()` once the cursor stands on a `=`: decode up to the next `,` or `]`. */
    static method CutValue(code: string, index: int) returns (v: string)
      requires Framed(code) && 0 <= index < |code| && code[index] == '='
      ensures v == ValueAt(code, index)
    {
      FramedEnds(code);
      var nextSplit := FindChar(code, ',', index);
      if nextSplit < 0 {
        nextSplit := |code| - 1;
      }
      v := DecodeParams(code[index + 1..nextSplit]);
    }
  }

  /**
   * `CqParamPairIterator` and `CqParamEntryIterator` (the same walk, one
   * returning a `Pair`, the other a `Map.Entry`): one pair per `,` of the code.
   */
  class PairIterator {
    const code: string
    var index: int

    ghost predicate Valid()
      reads this
    {
      Framed(code) && Cursor(code, ',', index)
    }

    /** The `,` positions still ahead of the cursor. */
    function Ahead(): seq<int>
      reads this
    {
      Positions(code, ',', Resume(index))
    }

    constructor(code: string)
      requires Framed(code)
      ensures Valid() && this.code == code && index == 0
      ensures Ahead() == Positions(code, ',', 0)
    {
      this.code := code;
      index := 0;
    }

    static method Open(code: string) returns (r: Result<PairIterator>)
      ensures r.Ok? <==> Framed(code)
      ensures r.Err? ==> r.error == IllegalArgument
      ensures r.Ok? ==> fresh(r.value) && r.value.Valid() && r.value.code == code
      ensures r.Ok? ==> r.value.Ahead() == Positions(code, ',', 0)
    {
      if !Framed(code) {
        return Err(IllegalArgument);
      }
      var it := new PairIterator(code);
      r := Ok(it);
    }

    function HasNext(): (b: bool)
      requires Valid()
      reads this
      ensures b <==> Ahead() != []
    {
      CursorStep(code, ',', index);
      HasNextAt(code, ',', index)
    }

    method Next() returns (r: Result<(string, string)>)
      requires Valid()
      modifies this
      ensures Valid()
      ensures old(Ahead()) == [] ==> r == Err(NoSuchElement) && index == old(index)
      ensures old(Ahead()) != [] ==>
        old(index) < index == old(Ahead())[0] && Ahead() == old(Ahead())[1..] && r == PairAt(code, index)
    {
      if !HasNext() {
        return Err(NoSuchElement);
      }
      CursorStep(code, ',', index);
      index := NextIndex(code, ',', index);
      r := CutPair(code, index);
    }

    /** The body of `next()` once the cursor stands on a `,`: cut the field and split it on `=`. */
    static method CutPair(code: string, index: int) returns (r: Result<(string, string)>)
      requires Framed(code) && 0 <= index < |code| && code[index] == ','
      ensures r == PairAt(code, index)
    {
      FramedEnds(code);
      var nextSplit := FindChar(code, ',', index + 1);
      if nextSplit < 0 {
        nextSplit := |code| - 1;
      }
      var keyValue := SplitAll(code[index + 1..nextSplit], '=');
      if |keyValue| < 2 {
        return Err(IndexOutOfBounds);
      }
      r := Ok((keyValue[0], DecodeParams(keyValue[1])));
    }
  }

  /** The key and pair iterators yield one item per `,`, the value iterator one per `=`. */
  lemma IterationCounts(code: string)
    ensures |Positions(code, ',', 0)| == CountChar(code, ',')
    ensures |Positions(code, '=', 0)| == CountChar(code, '=')
  {
    PositionsCount(code, ',', 0);
    PositionsCount(code, '=', 0);
    assert code[0..] == code;
  }

  /**
   * `CqTextIterator` (and the identical `MqIterator` of the mirai utilities):
   * the codes of `text` with the given head, found one at a time by `hasNext`
   * and handed out by `next`.
   */
  class TextIterator {
    const text: string
    const head: string
    var ti: int
    var e: int
    var next: Option<string>
    var get: bool

    ghost predicate Valid()
      reads this
    {
      && IsHead(head) && 0 <= e <= |text|
      && (get ==> next == None)
      && (!get && next == None ==> Tokens(text, head, e) == [])
    }

    /** The codes still to be handed out: the one found and buffered, then the rest of the walk. */
    ghost function Ahead(): seq<string>
      requires Valid()
      reads this
    {
      (if next.Some? then [next.value] else []) + Tokens(text, head, e)
    }

    constructor(text: string, head: string)
      requires IsHead(head)
      ensures Valid() && this.text == text && this.head == head
      ensures Ahead() == Tokens(text, head, 0)
    {
      this.text := text;
      this.head := head;
      ti := 0;
      e := 0;
      next := None;
      get := true;
    }

    /** Finds the next code if none is buffered; asking again does not move on. */
    method HasNext() returns (b: bool)
      requires Valid()
      modifies this
      ensures Valid() && Ahead() == old(Ahead()) && !get
      ensures b <==> Ahead() != []
      ensures b ==> next.Some?
    {
      if get {
        get := false;
        ti, e, next := Seek(text, head, e);
      }
      b := next != None;
    }

    /**
     * The search loop of `hasNext`: from `from` on, the next head closed by a
     * `]` (skipping unclosed heads), and the index of that `]`.
     */
    static method Seek(text: string, head: string, from: int) returns (ti: int, e: int, n: Option<string>)
      requires IsHead(head) && 0 <= from <= |text|
      ensures 0 <= e <= |text|
      ensures (if n.Some? then [n.value] else []) + Tokens(text, head, e) == Tokens(text, head, from)
      ensures n.None? ==> Tokens(text, head, e) == []
    {
      e := from;
      n := None;
      while true
        invariant 0 <= e <= |text| && n == None
        invariant Tokens(text, head, e) == Tokens(text, head, from)
        decreases |text| - e
      {
        ti := IndexOf(text, head, e);
        TokensStep(text, head, e);
        if ti >= 0 {
          var end := FindChar(text, ']', ti);
          if end >= 0 {
            n := Some(text[ti..end + 1]);
            e := end;
            return;
          } else {
            e := ti + 1;
          }
        }
        if !(ti >= 0 && e >= 0) {
          return;
        }
      }
    }

    /** Hands out the buffered code; with none buffered the source's `n!!` throws. */
    method Next() returns (r: Result<string>)
      requires Valid()
      modifies this
      ensures Valid() && get && next == None
      ensures old(next) == None ==> r == Err(NullPointer) && Ahead() == old(Ahead())
      ensures old(next) != None ==> r == Ok(old(next).value) && Ahead() == old(Ahead())[1..]
    {
      var n := next;
      next := None;
      get := true;
      if n == None {
        return Err(NullPointer);
      }
      r := Ok(n.value);
    }
  }

  /** `KQCodeUtils.getCqIter(text, type)`. */
  method CqIter(text: string, codeType: string) returns (it: TextIterator)
    ensures fresh(it) && it.Valid() && it.Ahead() == Tokens(text, CqHeadOf(codeType), 0)
  {
    it := new TextIterator(text, CqHeadOf(codeType));
  }

  /**
   * A `for (code in iterator)` loop over the text iterator: it sees exactly
   * the codes `getCqs` / `getMqs` collect, in order.
   */
  method Drain(text: string, head: string) returns (list: seq<string>)
    requires IsHead(head)
    ensures list == Tokens(text, head, 0)
  {
    var it := new TextIterator(text, head);
    list := [];
    while true
      invariant it.Valid() && it.text == text && it.head == head
      invariant list + it.Ahead() == Tokens(text, head, 0)
      decreases |it.Ahead()|
    {
      var more := it.HasNext();
      if !more {
        break;
      }
      var x := it.Next();
      AppendShift(list, x.value, it.Ahead(), Tokens(text, head, 0));
      list := list + [x.value];
    }
    assert list + [] == list;
  }
}
