/**
 * `KQCodeObjects`: the singleton codes. `AtAll`, `Anonymous` and
 * `AnonymousNoIgnore` are lazy codes over fixed texts; `Rps`, `Dice`,
 * `Shake` and `AnonymousCompulsory` are empty codes.
 */
module KQCodeObjects {
  import opened Results
  import opened Grammar
  import opened CQEscape
  import opened FastKQCode
  import opened KQCode

  /** `[CQ:at,qq=all]` */
  const AtAllText: string := CqHead + "at" + "," + "qq" + "=" + "all" + CqEnd
  /** `[CQ:anonymous,ignore=true]` */
  const AnonymousText: string := CqHead + "anonymous" + "," + "ignore" + "=" + "true" + CqEnd
  /** `[CQ:anonymous,ignore=false]` */
  const AnonymousNoIgnoreText: string := CqHead + "anonymous" + "," + "ignore" + "=" + "false" + CqEnd

  const Rps: EmptyCode := EmptyCode("rps")
  const Dice: EmptyCode := EmptyCode("dice")
  const Shake: EmptyCode := EmptyCode("shake")
  const AnonymousCompulsory: EmptyCode := EmptyCode("[CQ:anonymous]")

  /** `AtAll`: a code of type `at` whose `qq` is `all`. */
  lemma AtAllFacts()
    ensures Framed(AtAllText) && TypeOf(AtAllText) == "at"
    ensures Lookup(AtAllText, "qq") == Some("all") && DecodeOrNull(Lookup(AtAllText, "qq")) == Some("all")
  {
    var s := OneField("at", "qq", "all");
    DecodeWithoutAmpersand("all");
  }

  /** `Anonymous`: a code of type `anonymous` whose `ignore` is `true`. */
  lemma AnonymousFacts()
    ensures Framed(AnonymousText) && TypeOf(AnonymousText) == "anonymous"
    ensures DecodeOrNull(Lookup(AnonymousText, "ignore")) == Some("true")
  {
    var s := OneField("anonymous", "ignore", "true");
    DecodeWithoutAmpersand("true");
  }

  /** `AnonymousNoIgnore`: a code of type `anonymous` whose `ignore` is `false`. */
  lemma AnonymousNoIgnoreFacts()
    ensures Framed(AnonymousNoIgnoreText) && TypeOf(AnonymousNoIgnoreText) == "anonymous"
    ensures DecodeOrNull(Lookup(AnonymousNoIgnoreText, "ignore")) == Some("false")
  {
    var s := OneField("anonymous", "ignore", "false");
    DecodeWithoutAmpersand("false");
  }

  /**
   * The singletons over fixed texts, as `FastKQCode.byCode` builds them.
   * Each call allocates a fresh code with an empty cache, whereas the
   * library's `object`s are created once and every user shares one cache.
   */
  method AtAll() returns (c: FastCode)
    ensures fresh(c) && c.Valid() && c.code == AtAllText && c.codeType == "at"
  {
    AtAllFacts();
    c := new FastCode(AtAllText);
  }

  /** `Anonymous`: a fresh code per call, where the library has one shared object. */
  method Anonymous() returns (c: FastCode)
    ensures fresh(c) && c.Valid() && c.code == AnonymousText && c.codeType == "anonymous"
  {
    AnonymousFacts();
    c := new FastCode(AnonymousText);
  }

  /** `AnonymousNoIgnore`: a fresh code per call, where the library has one shared object. */
  method AnonymousNoIgnore() returns (c: FastCode)
    ensures fresh(c) && c.Valid() && c.code == AnonymousNoIgnoreText && c.codeType == "anonymous"
  {
    AnonymousNoIgnoreFacts();
    c := new FastCode(AnonymousNoIgnoreText);
  }

  /** `Rps`, `Dice` and `Shake` render as bare codes of their types. */
  lemma EmptySingletonsRender()
    ensures ToString(Rps) == "[CQ:rps]" && ToString(Dice) == "[CQ:dice]" && ToString(Shake) == "[CQ:shake]"
    ensures Size(Rps) == 0 && Size(Dice) == 0 && Size(Shake) == 0
  {
  }

  /**
   * `AnonymousCompulsory` wraps a whole code text as its type: its type is
   * `[CQ:anonymous]` and it renders that inside another head and `]`.
   */
  lemma AnonymousCompulsoryRenders()
    ensures AnonymousCompulsory.codeType == "[CQ:anonymous]"
    ensures ToString(AnonymousCompulsory) == "[CQ:[CQ:anonymous]]"
  {
  }
}
