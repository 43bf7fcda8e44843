/** The grammar markers of a CQ code, `[CQ:type,key=value,...]`. */
module Grammar {
  import opened Text
  import opened Scan

  const CqHead: string := "[CQ:"
  const CqEnd: string := "]"
  const CqSplit: string := ","
  const CqKv: string := "="

  /** The head a search for codes of type `t` looks for (`CQ_HEAD + type`). */
  function CqHeadOf(t: string): (h: string)
    ensures IsHead(h) && |h| == |t| + 4 && h[..4] == CqHead
    ensures ']' !in t ==> ']' !in h
  {
    CqHead + t
  }

  /** A code string's framing: it starts with `[CQ:` and ends with `]`. */
  predicate Framed(code: string) {
    StartsWith(code, CqHead) && EndsWith(code, CqEnd)
  }

  lemma FramedEnds(code: string)
    requires Framed(code)
    ensures |code| >= 5 && code[0] == '[' && code[|code| - 1] == ']'
  {
    assert code[..4] == CqHead && code[|code| - 1..] == CqEnd;
    assert code[0] == code[..4][0] && code[3] == code[..4][3];
    assert code[|code| - 1] == code[|code| - 1..][0];
  }
}
