/**
 * `CQEncoder` and `CQDecoder`: the ordered `replace` chains that escape text
 * and parameter values, and the round trip between them.
 *
 * The proofs go through a reference definition: `Escaped(s, S)` replaces,
 * character by character, every character of `s` that lies in `S` by its
 * five-character escape. Each `replace` pass of a chain moves one character
 * into (encoding) or out of (decoding) `S`.
 */
module CQEscape {
  import opened Text
  import opened Results

  /** Every character any of the escapers knows about. */
  const Specials: set<char> := {'&', '[', ']', ',', '\t', '\r', '\n'}

  /** The characters `encodeText` and `encodeParams` escape (`,` is not among them). */
  const TextSet: set<char> := {'&', '[', ']', '\t', '\r', '\n'}

  /** The characters an escape is built from. */
  predicate CodeChar(x: char) {
    x == '&' || x == '#' || x == 'a' || x == 'm' || x == 'p' || x == ';' || '0' <= x <= '9'
  }

  /** The escape of a special character. */
  function Code(c: char): (r: string)
    requires c in Specials
    ensures |r| == 5 && r[0] == '&' && r[4] == ';'
    ensures forall i :: 1 <= i < 5 ==> r[i] != '&' && r[i] !in Specials
  {
    match c
    case '&' => "&amp;"
    case '[' => "&#91;"
    case ']' => "&#93;"
    case ',' => "&#44;"
    case '\t' => "&#09;"
    case '\r' => "&#10;"
    case _ => "&#13;"
  }

  /** Reads an escape back: the character it stands for, if any. */
  function Uncode(w: string): Option<char> {
    if w == "&amp;" then Some('&')
    else if w == "&#91;" then Some('[')
    else if w == "&#93;" then Some(']')
    else if w == "&#44;" then Some(',')
    else if w == "&#09;" then Some('\t')
    else if w == "&#10;" then Some('\r')
    else if w == "&#13;" then Some('\n')
    else None
  }

  /** Every escape reads back as its character, so distinct characters have distinct escapes. */
  lemma UncodeCode(c: char)
    requires c in Specials
    ensures Uncode(Code(c)) == Some(c)
  {
  }

  lemma CodeInjective(c: char, d: char)
    requires c in Specials && d in Specials && c != d
    ensures Code(c) != Code(d)
  {
    UncodeCode(c);
    UncodeCode(d);
  }

  /** The set of escapes of the characters of `S`. */
  function CodeSet(S: set<char>): set<string>
    requires S <= Specials
  {
    set d | d in S :: Code(d)
  }

  function Esc(c: char, S: set<char>): string
    requires S <= Specials
  {
    if c in S then Code(c) else [c]
  }

  /** Reference definition: escape exactly the characters of `S`. */
  function Escaped(s: string, S: set<char>): string
    requires S <= Specials
  {
    if s == [] then [] else Esc(s[0], S) + Escaped(s[1..], S)
  }

  /** Escaping nothing is the identity. */
  lemma {:induction false} EscapedNone(s: string)
    ensures Escaped(s, {}) == s
  {
    if s != [] {
      EscapedNone(s[1..]);
      assert [s[0]] + s[1..] == s;
    }
  }

  /**
   * One encoding pass `replace(c, Code(c))` escapes one more character. It
   * must come before any other pass when `c` is `&`, since every escape
   * contains an `&`.
   */
  lemma {:induction false} EncodeStep(s: string, S: set<char>, c: char)
    requires S <= Specials && c in Specials && c !in S
    requires c == '&' ==> S == {}
    ensures Replace(Escaped(s, S), [c], Code(c)) == Escaped(s, S + {c})
  {
    if s != [] {
      EncodeStep(s[1..], S, c);
      var rest := Escaped(s[1..], S);
      if s[0] == c {
        ReplaceAtHead([c], rest, Code(c));
      } else {
        var w := Esc(s[0], S);
        assert forall i :: 0 <= i < |w| ==> w[i] != c;
        ReplaceSkip(w, rest, [c], Code(c));
      }
    }
  }

  /** `replace` at an occurrence of its pattern. */
  lemma ReplaceAtHead(pat: string, rest: string, rep: string)
    requires |pat| > 0
    ensures Replace(pat + rest, pat, rep) == rep + Replace(rest, pat, rep)
  {
    var t := pat + rest;
    assert t[..|pat|] == pat;
    assert t[|pat|..] == rest;
  }

  /** Decoding `c` passes over the escape of another character. */
  lemma DecodeOtherCode(d: char, c: char, rest: string)
    requires d in Specials && c in Specials && d != c
    ensures Replace(Code(d) + rest, Code(c), [c]) == Code(d) + Replace(rest, Code(c), [c])
  {
    CodeInjective(d, c);
    var w := Code(d);
    var t := w + rest;
    assert t[..5] == w;
    assert t[1..] == w[1..] + rest;
    ReplaceSkip(w[1..], rest, Code(c), [c]);
    assert [w[0]] + w[1..] == w;
  }

  /**
   * One decoding pass `replace(Code(c), c)` un-escapes `c`, as long as `&`
   * is still escaped (so that every `&` starts an escape). When `c` is not
   * escaped the pass changes nothing.
   */
  lemma {:induction false} DecodeStep(s: string, S: set<char>, c: char)
    requires S <= Specials && '&' in S && c in Specials
    ensures Replace(Escaped(s, S), Code(c), [c]) == Escaped(s, S - {c})
  {
    if s != [] {
      DecodeStep(s[1..], S, c);
      var rest := Escaped(s[1..], S);
      if s[0] !in S {
        ReplaceSkip([s[0]], rest, Code(c), [c]);
      } else if s[0] == c {
        ReplaceAtHead(Code(c), rest, [c]);
      } else {
        DecodeOtherCode(s[0], c, rest);
      }
    }
  }

  /** `CQDecoder.decodeText`. */
  function DecodeText(s: string): string {
    Replace(Replace(Replace(Replace(Replace(Replace(s,
      "&#91;", "["), "&#93;", "]"), "&#09;", "\t"), "&#10;", "\r"), "&#13;", "\n"), "&amp;", "&")
  }

  /** `CQDecoder.decodeParams`: as `decodeText`, plus `&#44;` back to `,`. */
  function DecodeParams(s: string): string {
    Replace(Replace(Replace(Replace(Replace(Replace(Replace(s,
      "&#91;", "["), "&#93;", "]"), "&#44;", ","), "&#09;", "\t"), "&#10;", "\r"), "&#13;", "\n"), "&amp;", "&")
  }

  /** `CQEncoder.encodeText`. */
  function EncodeText(s: string): string {
    Replace(Replace(Replace(Replace(Replace(Replace(s,
      "&", "&amp;"), "[", "&#91;"), "]", "&#93;"), "\t", "&#09;"), "\r", "&#10;"), "\n", "&#13;")
  }

  /** `CQEncoder.encodeParams`: the same chain as `encodeText`; `,` is not escaped. */
  function EncodeParams(s: string): string {
    Replace(Replace(Replace(Replace(Replace(Replace(s,
      "&", "&amp;"), "[", "&#91;"), "]", "&#93;"), "\t", "&#09;"), "\r", "&#10;"), "\n", "&#13;")
  }

  /** One pass of the encoding chain, with its pattern and replacement as written. */
  lemma EncodePass(s: string, S: set<char>, c: char, pat: string, rep: string, T: set<char>)
    requires S <= Specials && c in Specials && c !in S && (c == '&' ==> S == {})
    requires pat == [c] && rep == Code(c) && T == S + {c}
    ensures T <= Specials && Replace(Escaped(s, S), pat, rep) == Escaped(s, T)
  {
    EncodeStep(s, S, c);
  }

  /** The encoding chain escapes exactly the characters of `TextSet`. */
  lemma EncodeTextEscaped(s: string)
    ensures EncodeText(s) == Escaped(s, TextSet)
  {
    EscapedNone(s);
    EncodePass(s, {}, '&', "&", "&amp;", {'&'});
    EncodePass(s, {'&'}, '[', "[", "&#91;", {'&', '['});
    EncodePass(s, {'&', '['}, ']', "]", "&#93;", {'&', '[', ']'});
    EncodePass(s, {'&', '[', ']'}, '\t', "\t", "&#09;", {'&', '[', ']', '\t'});
    EncodePass(s, {'&', '[', ']', '\t'}, '\r', "\r", "&#10;", {'&', '[', ']', '\t', '\r'});
    EncodePass(s, {'&', '[', ']', '\t', '\r'}, '\n', "\n", "&#13;", TextSet);
  }

  /** `encodeParams` escapes the same characters as `encodeText` and leaves `,` alone. */
  lemma EncodeParamsIsEncodeText(s: string)
    ensures EncodeParams(s) == EncodeText(s) == Escaped(s, TextSet)
    ensures EncodeParams(",") == ","
  {
    EncodeTextEscaped(s);
    EncodeTextEscaped(",");
    assert Escaped(",", TextSet) == [','] + Escaped([], TextSet);
  }

  /** One pass of a decoding chain, with its pattern and replacement as written. */
  lemma DecodePass(s: string, S: set<char>, c: char, pat: string, rep: string, T: set<char>)
    requires S <= Specials && '&' in S && c in Specials
    requires pat == Code(c) && rep == [c] && T == S - {c}
    ensures T <= Specials && Replace(Escaped(s, S), pat, rep) == Escaped(s, T)
  {
    DecodeStep(s, S, c);
  }

  /** Decoding the `TextSet` escapes in `decodeText`'s order leaves the plain text. */
  lemma DecodeTextUnescapes(s: string)
    ensures DecodeText(Escaped(s, TextSet)) == s
  {
    DecodePass(s, TextSet, '[', "&#91;", "[", {'&', ']', '\t', '\r', '\n'});
    DecodePass(s, {'&', ']', '\t', '\r', '\n'}, ']', "&#93;", "]", {'&', '\t', '\r', '\n'});
    DecodePass(s, {'&', '\t', '\r', '\n'}, '\t', "&#09;", "\t", {'&', '\r', '\n'});
    DecodePass(s, {'&', '\r', '\n'}, '\r', "&#10;", "\r", {'&', '\n'});
    DecodePass(s, {'&', '\n'}, '\n', "&#13;", "\n", {'&'});
    DecodePass(s, {'&'}, '&', "&amp;", "&", {});
    EscapedNone(s);
  }

  /**
   * `decodeParams` undoes the escapes of any set of special characters that
   * includes `&`: its `&#44;` pass is a no-op on `encodeParams` output and
   * undoes a `,` escape where there is one.
   */
  lemma DecodeParamsUnescapes(s: string, S: set<char>)
    requires S <= Specials && '&' in S
    ensures DecodeParams(Escaped(s, S)) == s
  {
    var S1 := S - {'['};
    var S2 := S1 - {']'};
    var S3 := S2 - {','};
    var S4 := S3 - {'\t'};
    var S5 := S4 - {'\r'};
    var S6 := S5 - {'\n'};
    DecodePass(s, S, '[', "&#91;", "[", S1);
    DecodePass(s, S1, ']', "&#93;", "]", S2);
    DecodePass(s, S2, ',', "&#44;", ",", S3);
    DecodePass(s, S3, '\t', "&#09;", "\t", S4);
    DecodePass(s, S4, '\r', "&#10;", "\r", S5);
    DecodePass(s, S5, '\n', "&#13;", "\n", S6);
    assert S6 == {'&'};
    DecodePass(s, S6, '&', "&amp;", "&", {});
    EscapedNone(s);
  }

  /** Round trip for message text. */
  lemma DecodeEncodeText(s: string)
    ensures DecodeText(EncodeText(s)) == s
  {
    EncodeTextEscaped(s);
    DecodeTextUnescapes(s);
  }

  /** Round trip for parameter values. */
  lemma DecodeEncodeParams(s: string)
    ensures DecodeParams(EncodeParams(s)) == s
  {
    EncodeParamsIsEncodeText(s);
    DecodeParamsUnescapes(s, TextSet);
  }

  /** A character of `S` occurs in `e` only as the `&` that opens one of the escapes of `S`. */
  predicate WellEscaped(e: string, S: set<char>)
    requires S <= Specials
  {
    forall i :: 0 <= i < |e| && e[i] in S ==> e[i] == '&' && i + 5 <= |e| && e[i..i + 5] in CodeSet(S)
  }

  lemma {:induction false} EscapedShape(s: string, S: set<char>)
    requires S <= Specials && '&' in S
    ensures WellEscaped(Escaped(s, S), S)
  {
    if s != [] {
      EscapedShape(s[1..], S);
      var w := Esc(s[0], S);
      var rest := Escaped(s[1..], S);
      assert WellEscaped(rest, S);
      var e := w + rest;
      assert e == Escaped(s, S);
      forall i | 0 <= i < |e| && e[i] in S
        ensures e[i] == '&' && i + 5 <= |e| && e[i..i + 5] in CodeSet(S)
      {
        if i < |w| {
          assert s[0] in S;
          assert w == Code(s[0]) && i == 0;
          assert e[0..5] == w;
          assert Code(s[0]) in CodeSet(S);
        } else {
          var j := i - |w|;
          assert e[i] == rest[j];
          assert rest[j] in S;
          assert j + 5 <= |rest|;
          assert e[i..i + 5] == rest[j..j + 5];
        }
      }
    }
  }

  /**
   * `encodeParams` output holds no `[`, `]`, tab, CR or LF, and every `&` in
   * it starts one of the six escapes.
   */
  lemma EncodeParamsClean(s: string)
    ensures var e := EncodeParams(s);
      (forall i :: 0 <= i < |e| ==> e[i] !in TextSet - {'&'})
      && forall i :: 0 <= i < |e| && e[i] == '&' ==> i + 5 <= |e| && e[i..i + 5] in CodeSet(TextSet)
  {
    EncodeParamsIsEncodeText(s);
    EscapedShape(s, TextSet);
    assert WellEscaped(EncodeParams(s), TextSet);
  }

  /** A pass whose pattern starts with `&` leaves text without `&` alone. */
  lemma AmpersandFree(s: string, pat: string, rep: string)
    requires '&' !in s && |pat| > 0 && pat[0] == '&'
    ensures Replace(s, pat, rep) == s
  {
    ReplaceAbsent(s, pat, rep);
  }

  /** Text without `&` contains no escape, so decoding leaves it alone. */
  lemma DecodeWithoutAmpersand(s: string)
    requires '&' !in s
    ensures DecodeParams(s) == s && DecodeText(s) == s
  {
    AmpersandFree(s, "&#91;", "[");
    AmpersandFree(s, "&#93;", "]");
    AmpersandFree(s, "&#44;", ",");
    AmpersandFree(s, "&#09;", "\t");
    AmpersandFree(s, "&#10;", "\r");
    AmpersandFree(s, "&#13;", "\n");
    AmpersandFree(s, "&amp;", "&");
  }

  /** Escaping works character by character, so it distributes over concatenation. */
  lemma {:induction false} EscapedAppend(a: string, b: string, S: set<char>)
    requires S <= Specials
    ensures Escaped(a + b, S) == Escaped(a, S) + Escaped(b, S)
    decreases |a|
  {
    if a != [] {
      assert (a + b)[1..] == a[1..] + b;
      EscapedAppend(a[1..], b, S);
    } else {
      assert a + b == b;
    }
  }

  /**
   * A character that is neither escaped nor part of an escape occurs in the
   * escaped text exactly when it occurs in the original.
   */
  lemma {:induction false} EscapedKeeps(s: string, S: set<char>, c: char)
    requires S <= Specials && c !in S && !CodeChar(c)
    ensures c in Escaped(s, S) <==> c in s
    decreases |s|
  {
    if s != [] {
      EscapedKeeps(s[1..], S, c);
      assert s == [s[0]] + s[1..];
      if s[0] in S {
        var w := Code(s[0]);
        assert c !in w by {
          assert forall i :: 0 <= i < 5 ==> CodeChar(w[i]);
        }
      }
    }
  }

  /** The last character of an escaped text is the original's, or the `;` closing its escape. */
  lemma EscapedLast(s: string, S: set<char>)
    requires S <= Specials && s != []
    ensures var e := Escaped(s, S); var x := s[|s| - 1];
      e != [] && e[|e| - 1] == if x in S then ';' else x
  {
    var n := |s| - 1;
    assert s == s[..n] + [s[n]];
    EscapedAppend(s[..n], [s[n]], S);
    assert Escaped([s[n]], S) == Esc(s[n], S) + Escaped([], S);
  }

  /**
   * What escaping a set without `,` leaves in place: no `,`, `=` or space is
   * added, and the text starts and ends with a space exactly when the
   * original does.
   */
  lemma EscapedEdges(v: string, S: set<char>)
    requires S <= Specials && ',' !in S
    ensures var e := Escaped(v, S);
      && (',' in e <==> ',' in v) && ('=' in e <==> '=' in v) && (' ' in e <==> ' ' in v)
      && (e == [] <==> v == [])
      && (v != [] ==> (e[0] == ' ' <==> v[0] == ' ') && (e[|e| - 1] == ' ' <==> v[|v| - 1] == ' '))
  {
    EscapedKeeps(v, S, ',');
    EscapedKeeps(v, S, '=');
    EscapedKeeps(v, S, ' ');
    if v != [] {
      EscapedLast(v, S);
      assert Escaped(v, S) == Esc(v[0], S) + Escaped(v[1..], S);
    }
  }

  /** `encodeParams` adds no `,`, `=` or space, and keeps spaces at its ends as they were. */
  lemma EncodeParamsKeeps(v: string)
    ensures var e := EncodeParams(v);
      && (',' in e <==> ',' in v) && ('=' in e <==> '=' in v) && (' ' in e <==> ' ' in v)
      && (e == [] <==> v == [])
      && (v != [] ==> (e[0] == ' ' <==> v[0] == ' ') && (e[|e| - 1] == ' ' <==> v[|v| - 1] == ' '))
  {
    EncodeParamsIsEncodeText(v);
    EscapedEdges(v, TextSet);
  }
}
