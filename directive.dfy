/**
 * The output format the prompts of app.py ask the model for (app.py:262;
 * the text prompt at app.py:280-282 writes the same lines, each indented):
 *
 *   选项<n>风格：<style>
 *   回复：<reply>
 *   点评：<critique>
 *
 * repeated once per suggestion. `Render` writes suggestions in that format,
 * and `ParseRendered` proves that the parser of app.py:156-216 reads each
 * suggestion back, in order, with its three fields trimmed, provided it is
 * `WellFormed`: a decimal option number, a one-line style without "：" or
 * "选项", a reply and a critique without "选项", "回复：" or "点评：", and a
 * reply that is not blank. A suggestion outside these conditions is not read
 * back as written: a reply such as "两个选项都行" is cut at its "选项".
 */
module FormatDirective {
  import opened Wrappers
  import opened PyStrings
  import opened ResponseParser

  /** One suggestion as the model is asked to write it. */
  datatype Suggestion = Suggestion(number: string, style: string, reply: string, critique: string)

  /** A decimal option number such as "1". */
  predicate Digits(s: string) {
    s != [] && forall c | c in s :: '0' <= c <= '9'
  }

  /** A reply or critique that does not itself contain any of the markers the
      parser cuts at. */
  predicate Plain(t: string) {
    !Contains(t, OptionMarker) && !Contains(t, ReplyMarker) && !Contains(t, CritiqueMarker)
  }

  /** What a suggestion must satisfy to be read back as written: a numeric
      option number, a one-line style label without a full-width colon, marker
      free reply and critique, and a reply that is not blank. */
  predicate WellFormed(g: Suggestion) {
    Digits(g.number)
    && '\n' !in g.style && '：' !in g.style && !Contains(g.style, OptionMarker)
    && Plain(g.reply) && Plain(g.critique) && !AllSpace(g.reply)
  }

  /** The first line after "选项": "<n>风格：<style>". */
  function Head(g: Suggestion): string {
    g.number + StyleWord + Colon + g.style
  }

  /** One suggestion without its leading "选项". */
  function Block(g: Suggestion): string {
    Head(g) + Newline + ReplyMarker + g.reply + Newline + CritiqueMarker + g.critique
  }

  /** Suggestions written one after the other, each introduced by "选项". */
  function Render(ss: seq<Suggestion>): string {
    if ss == [] then [] else OptionMarker + Block(ss[0]) + Render(ss[1..])
  }

  /** A single suggestion is written as "选项" and its block. */
  lemma RenderOne(g: Suggestion)
    ensures Render([g]) == OptionMarker + Block(g)
  {
    assert [g][1..] == [];
  }

  /** A single suggestion is read back as a single entry. */
  lemma ExpectedOne(g: Suggestion, css: string)
    ensures ExpectedAll([g], css) == [Expected(g, css)]
  {
    assert [g][1..] == [];
  }

  /** The blocks of `ss`, in order. */
  function Blocks(ss: seq<Suggestion>): (bs: seq<string>)
    ensures |bs| == |ss|
  {
    if ss == [] then [] else [Block(ss[0])] + Blocks(ss[1..])
  }

  /** The entry a well-formed suggestion is read back as. */
  function Expected(g: Suggestion, css: string): Entry {
    Entry(Strip(g.style), Strip(g.reply), Strip(g.critique), css)
  }

  /** The entries `ss` are read back as. */
  function ExpectedAll(ss: seq<Suggestion>, css: string): (es: seq<Entry>)
    ensures |es| == |ss|
  {
    if ss == [] then [] else [Expected(ss[0], css)] + ExpectedAll(ss[1..], css)
  }

  // ---------------------------------------------------------------------
  // Where the markers do not occur
  // ---------------------------------------------------------------------

  /** A block holds no "选项". */
  lemma BlockLacksOption(g: Suggestion)
    requires WellFormed(g)
    ensures !Contains(Block(g), OptionMarker)
  {
    var q := OptionMarker;
    assert '选' !in g.number;
    MissingCharacter(g.number, q, 0);
    MissingCharacter(StyleWord, q, 0);
    MissingCharacter(Colon, q, 0);
    MissingCharacter(Newline, q, 0);
    MissingCharacter(ReplyMarker, q, 0);
    MissingCharacter(CritiqueMarker, q, 0);
    var x := g.number;
    NoOccurrenceAcross(x, StyleWord, q);
    x := x + StyleWord;
    NoOccurrenceAcross(x, Colon, q);
    x := x + Colon;
    NoOccurrenceAcross(x, g.style, q);
    x := x + g.style;
    NoOccurrenceAcross(x, Newline, q);
    x := x + Newline;
    NoOccurrenceAcross(x, ReplyMarker, q);
    x := x + ReplyMarker;
    NoOccurrenceAcross(x, g.reply, q);
    x := x + g.reply;
    NoOccurrenceAcross(x, Newline, q);
    x := x + Newline;
    NoOccurrenceAcross(x, CritiqueMarker, q);
    x := x + CritiqueMarker;
    NoOccurrenceAcross(x, g.critique, q);
  }

  /** The next "选项" cannot start inside a block: cutting a block followed by
      "选项" cuts right after the block. */
  lemma BlockThenOption(g: Suggestion)
    requires WellFormed(g)
    ensures !Contains(Block(g) + OptionMarker[..|OptionMarker| - 1], OptionMarker)
  {
    BlockLacksOption(g);
    assert OptionMarker[..|OptionMarker| - 1] == "选";
    MissingCharacter("选", OptionMarker, 1);
    NoOccurrenceAcross(Block(g), "选", OptionMarker);
  }

  /** The rendered text holds no spelled-out ordinal "选项<c>" for a
      non-digit `c`. */
  lemma {:induction false} RenderLacksOrdinal(ss: seq<Suggestion>, c: char)
    requires forall g | g in ss :: WellFormed(g)
    requires !('0' <= c <= '9') && c != '选'
    ensures !Contains(Render(ss), OptionMarker + [c])
  {
    var q := OptionMarker + [c];
    if ss != [] {
      var g := ss[0];
      assert g in ss;
      BlockLacksOption(g);
      if Contains(Block(g), q) {
        ContainsPrefixOfPattern(Block(g), OptionMarker, [c]);
      }
      assert Block(g)[0] == g.number[0];
      assert g.number[0] in g.number;
      NoOccurrenceAcross(OptionMarker, Block(g), q);
      forall h | h in ss[1..] ensures WellFormed(h) {
        assert h in ss;
      }
      RenderLacksOrdinal(ss[1..], c);
      if ss[1..] == [] {
        assert Render(ss[1..]) == [];
        assert Render(ss) == OptionMarker + Block(g);
      } else {
        RenderStart(ss[1..]);
        NoOccurrenceAcross(OptionMarker + Block(g), Render(ss[1..]), q);
      }
    }
  }

  /** Rendered text starts with the option marker. */
  lemma RenderStart(ss: seq<Suggestion>)
    requires ss != []
    ensures Render(ss) != [] && Render(ss)[0] == '选'
  {
    var rest := Block(ss[0]) + Render(ss[1..]);
    assert Render(ss) == OptionMarker + rest;
    assert OptionMarker[0] == '选';
  }

  /** Text of this format is left as it is by the normalisation step. */
  lemma RenderedIsNormal(pre: string, ss: seq<Suggestion>)
    requires !Contains(pre, OptionMarker)
    requires forall g | g in ss :: WellFormed(g)
    ensures Normalize(pre + Render(ss)) == pre + Render(ss)
  {
    OrdinalAbsent(pre, ss, '一');
    OrdinalAbsent(pre, ss, '二');
    OrdinalAbsent(pre, ss, '三');
    assert "选项一" == OptionMarker + ['一'];
    assert "选项二" == OptionMarker + ['二'];
    assert "选项三" == OptionMarker + ['三'];
    NormalizeCanonical(pre + Render(ss));
  }

  lemma OrdinalAbsent(pre: string, ss: seq<Suggestion>, c: char)
    requires !Contains(pre, OptionMarker)
    requires forall g | g in ss :: WellFormed(g)
    requires !('0' <= c <= '9') && c != '选'
    ensures !Contains(pre + Render(ss), OptionMarker + [c])
  {
    var q := OptionMarker + [c];
    if Contains(pre, q) {
      ContainsPrefixOfPattern(pre, OptionMarker, [c]);
    }
    RenderLacksOrdinal(ss, c);
    if ss == [] {
      assert pre + Render(ss) == pre;
    } else {
      RenderStart(ss);
      NoOccurrenceAcross(pre, Render(ss), q);
    }
  }

  // ---------------------------------------------------------------------
  // Fragments
  // ---------------------------------------------------------------------

  /** Cutting the rendered text at "选项" gives back the preamble and the
      blocks, in order. */
  lemma {:induction false} SplitRendered(pre: string, ss: seq<Suggestion>)
    requires !Contains(pre + OptionMarker[..|OptionMarker| - 1], OptionMarker)
    requires forall g | g in ss :: WellFormed(g)
    ensures Split(pre + Render(ss), OptionMarker) == [pre] + Blocks(ss)
    decreases |ss|
  {
    if ss == [] {
      assert pre + Render(ss) == pre;
      MissingCharacter("选", OptionMarker, 1);
      assert OptionMarker[..|OptionMarker| - 1] == "选";
      if Contains(pre, OptionMarker) {
        ContainsInPart(pre, "选", OptionMarker);
      }
      SplitAbsent(pre, OptionMarker);
    } else {
      var g := ss[0];
      assert g in ss;
      forall h | h in ss[1..] ensures WellFormed(h) {
        assert h in ss;
      }
      BlockThenOption(g);
      SplitRendered(Block(g), ss[1..]);
      SplitFirst(pre, ss);
    }
  }

  /** The first cut of the rendered text falls right after the preamble. */
  lemma SplitFirst(pre: string, ss: seq<Suggestion>)
    requires ss != []
    requires !Contains(pre + OptionMarker[..|OptionMarker| - 1], OptionMarker)
    ensures Split(pre + Render(ss), OptionMarker) == [pre] + Split(Block(ss[0]) + Render(ss[1..]), OptionMarker)
  {
    var rest := Block(ss[0]) + Render(ss[1..]);
    assert pre + Render(ss) == pre + OptionMarker + rest;
    SplitAfter(pre, OptionMarker, rest);
  }

  /** Collecting the blocks of well-formed suggestions reads each one back. */
  lemma {:induction false} CollectBlocks(ss: seq<Suggestion>, css: string)
    requires forall g | g in ss :: WellFormed(g)
    ensures Collect(Blocks(ss), css) == ExpectedAll(ss, css)
  {
    if ss != [] {
      var g := ss[0];
      assert g in ss;
      CollectAppend([Block(g)], Blocks(ss[1..]), css);
      CollectOne(Block(g), css);
      ReadBlock(g);
      StripBlank(g.reply);
      forall h | h in ss[1..] ensures WellFormed(h) {
        assert h in ss;
      }
      CollectBlocks(ss[1..], css);
    }
  }

  // ---------------------------------------------------------------------
  // Reading one block
  // ---------------------------------------------------------------------

  /** The first line of a block is its head. */
  lemma HeadLine(g: Suggestion)
    requires WellFormed(g)
    ensures Split(Block(g), Newline) == [Head(g)] + Split(Block(g)[|Head(g)| + 1..], Newline)
  {
    var h := Head(g);
    var t := ReplyMarker + g.reply + Newline + CritiqueMarker + g.critique;
    assert Block(g) == h + Newline + t;
    assert Block(g)[|h| + 1..] == t;
    assert '\n' !in g.number;
    assert '\n' !in h;
    SplitAfterChar(h, Newline, t);
  }

  /** The head names the style with "风格". */
  lemma HeadHasStyleWord(g: Suggestion)
    ensures Contains(Head(g), StyleWord)
  {
    assert Head(g) == g.number + StyleWord + (Colon + g.style);
    OccursInMiddle(g.number, StyleWord, Colon + g.style);
  }

  /** The style is what follows the only "：" of the head, trimmed. */
  lemma StyleOfBlock(g: Suggestion)
    requires WellFormed(g)
    ensures StyleOf(Block(g)) == Strip(g.style)
  {
    HeadLine(g);
    HeadHasStyleWord(g);
    var lines := Split(Block(g), Newline);
    assert FirstLineWith(lines, StyleWord) == Some(Head(g));
    var a := g.number + StyleWord;
    assert '：' !in g.number;
    assert Colon[..|Colon| - 1] == [] && a + [] == a;
    MissingCharacter(a, Colon, 0);
    SplitAfter(a, Colon, g.style);
    MissingCharacter(g.style, Colon, 0);
    SplitAbsent(g.style, Colon);
    assert Split(Head(g), Colon) == [a, g.style];
  }

  /** Up to the reply marker, the block holds no "回复：". */
  lemma BeforeReply(g: Suggestion)
    requires WellFormed(g)
    ensures !Contains(Head(g) + Newline + ReplyMarker[..|ReplyMarker| - 1], ReplyMarker)
  {
    var q := ReplyMarker;
    assert q[..|q| - 1] == "回复";
    assert '：' !in g.number;
    var w := g.style + "\n回复";
    assert '：' !in w;
    MissingCharacter(w, q, 2);
    MissingCharacter(Colon, q, 0);
    NoOccurrenceAcross(Colon, w, q);
    var a := g.number + StyleWord;
    MissingCharacter(a, q, 2);
    NoOccurrenceAcross(a, Colon + w, q);
    assert Head(g) + Newline + q[..|q| - 1] == a + (Colon + w);
  }

  /** After the reply marker, the block holds no further "回复：". */
  lemma AfterReplyLacksReply(g: Suggestion)
    requires WellFormed(g)
    ensures !Contains(g.reply + Newline + CritiqueMarker + g.critique, ReplyMarker)
  {
    var q := ReplyMarker;
    var lit := Newline + CritiqueMarker;
    MissingCharacter(lit, q, 0);
    NoOccurrenceAcross(lit, g.critique, q);
    NoOccurrenceAcross(g.reply, lit + g.critique, q);
    assert g.reply + Newline + CritiqueMarker + g.critique == g.reply + (lit + g.critique);
  }

  /** Up to the critique marker, the reply holds no "点评：". */
  lemma ReplyBeforeCritique(g: Suggestion)
    requires WellFormed(g)
    ensures !Contains(g.reply + Newline + CritiqueMarker[..|CritiqueMarker| - 1], CritiqueMarker)
  {
    var q := CritiqueMarker;
    assert q[..|q| - 1] == "点评";
    MissingCharacter("\n点评", q, 2);
    NoOccurrenceAcross(g.reply, "\n点评", q);
    assert g.reply + Newline + q[..|q| - 1] == g.reply + "\n点评";
  }

  /** Up to the critique marker, the block holds no "点评：". */
  lemma BeforeCritique(g: Suggestion)
    requires WellFormed(g)
    ensures !Contains(Head(g) + Newline + ReplyMarker + g.reply + Newline + CritiqueMarker[..|CritiqueMarker| - 1], CritiqueMarker)
  {
    var q := CritiqueMarker;
    assert '：' !in g.number;
    var a := g.number + StyleWord;
    MissingCharacter(a, q, 2);
    MissingCharacter(Colon, q, 0);
    MissingCharacter(g.style, q, 2);
    NoOccurrenceAcross(Colon, g.style, q);
    NoOccurrenceAcross(a, Colon + g.style, q);
    assert Head(g) == a + (Colon + g.style);
    var lit := Newline + ReplyMarker;
    MissingCharacter(lit, q, 0);
    NoOccurrenceAcross(Head(g), lit, q);
    NoOccurrenceAcross(Head(g) + lit, g.reply, q);
    ReplyBeforeCritique(g);
    assert q[..|q| - 1] == "点评";
    MissingCharacter("\n点评", q, 2);
    NoOccurrenceAcross(Head(g) + lit + g.reply, "\n点评", q);
    assert Head(g) + Newline + ReplyMarker + g.reply + Newline + q[..|q| - 1]
      == Head(g) + lit + g.reply + "\n点评";
  }

  /** What follows the reply marker: the reply, the critique marker and the
      critique. */
  lemma AfterReplyOfBlock(g: Suggestion)
    requires WellFormed(g)
    ensures Contains(Block(g), ReplyMarker)
    ensures After(Block(g), ReplyMarker) == g.reply + Newline + CritiqueMarker + g.critique
  {
    var r := g.reply + Newline + CritiqueMarker + g.critique;
    var a := Head(g) + Newline;
    assert Block(g) == a + ReplyMarker + r;
    BeforeReply(g);
    SplitAfter(a, ReplyMarker, r);
    AfterReplyLacksReply(g);
    SplitAbsent(r, ReplyMarker);
    if !Contains(Block(g), ReplyMarker) {
      SplitAbsent(Block(g), ReplyMarker);
    }
  }

  /** What follows the critique marker: the critique. */
  lemma AfterCritiqueOfBlock(g: Suggestion)
    requires WellFormed(g)
    ensures Contains(Block(g), CritiqueMarker)
    ensures After(Block(g), CritiqueMarker) == g.critique
  {
    var a := Head(g) + Newline + ReplyMarker + g.reply + Newline;
    assert Block(g) == a + CritiqueMarker + g.critique;
    BeforeCritique(g);
    SplitAfter(a, CritiqueMarker, g.critique);
    SplitAbsent(g.critique, CritiqueMarker);
    if !Contains(Block(g), CritiqueMarker) {
      SplitAbsent(Block(g), CritiqueMarker);
    }
  }

  /** The reply is what lies between the two markers, trimmed. */
  lemma ReplyOfBlock(g: Suggestion)
    requires WellFormed(g)
    ensures Strip(Before(g.reply + Newline + CritiqueMarker + g.critique, CritiqueMarker)) == Strip(g.reply)
  {
    ReplyBeforeCritique(g);
    SplitAfter(g.reply + Newline, CritiqueMarker, g.critique);
    assert AllSpace(Newline);
    StripPadded([], g.reply, Newline);
    assert [] + g.reply + Newline == g.reply + Newline;
  }

  /** A well-formed block is read as its three fields, trimmed
      (app.py:180-195). */
  lemma ReadBlock(g: Suggestion)
    requires WellFormed(g)
    ensures ExtractFields(Block(g)) == Fields(Strip(g.style), Strip(g.reply), Strip(g.critique))
  {
    AfterReplyOfBlock(g);
    AfterCritiqueOfBlock(g);
    ReplyOfBlock(g);
    StyleOfBlock(g);
  }

  // ---------------------------------------------------------------------
  // The round trip
  // ---------------------------------------------------------------------

  /** Well-formed suggestions in the requested format, after a preamble
      without "选项", are read back as the preamble's own entry (if any)
      followed by one entry per suggestion, in order, with its fields trimmed.
      A suggestion that is not `WellFormed` (a reply holding "选项", say) is
      not covered: the parser cuts it apart. */
  lemma ParseRendered(pre: string, ss: seq<Suggestion>, mode: string)
    requires ss != []
    requires !Contains(pre, OptionMarker)
    requires forall g | g in ss :: WellFormed(g)
    ensures Parse(pre + Render(ss), mode) == EntryOf(pre, CssClass(mode)) + ExpectedAll(ss, CssClass(mode))
  {
    var text := pre + Render(ss);
    var css := CssClass(mode);
    RenderedIsNormal(pre, ss);
    assert OptionMarker[..|OptionMarker| - 1] == "选";
    MissingCharacter("选", OptionMarker, 1);
    NoOccurrenceAcross(pre, "选", OptionMarker);
    SplitRendered(pre, ss);
    CollectAppend([pre], Blocks(ss), css);
    CollectOne(pre, css);
    CollectBlocks(ss, css);
  }

  /** Output made only of well-formed suggestions in the requested format is
      read back entry for entry. */
  lemma ParseStrictOutput(ss: seq<Suggestion>, mode: string)
    requires ss != []
    requires forall g | g in ss :: WellFormed(g)
    ensures Parse(Render(ss), mode) == ExpectedAll(ss, CssClass(mode))
  {
    MissingCharacter([], OptionMarker, 0);
    ParseRendered([], ss, mode);
    assert [] + Render(ss) == Render(ss);
    StripBlank([]);
  }

  /** The example of one complete option: "选项1风格：幽默\n回复：哈哈好的\n点评：轻松化解"
      is read as one entry {幽默, 哈哈好的, 轻松化解}. */
  lemma ParseOneOption(mode: string)
    ensures Parse("选项1风格：幽默\n回复：哈哈好的\n点评：轻松化解", mode)
      == [Entry("幽默", "哈哈好的", "轻松化解", CssClass(mode))]
  {
    var g := Suggestion("1", "幽默", "哈哈好的", "轻松化解");
    ExampleWellFormed(g);
    ParseStrictOutput([g], mode);
    ExampleRendered(g);
    ExampleExpected(g, CssClass(mode));
  }

  lemma ExampleExpected(g: Suggestion, css: string)
    requires g == Suggestion("1", "幽默", "哈哈好的", "轻松化解")
    ensures ExpectedAll([g], css) == [Entry("幽默", "哈哈好的", "轻松化解", css)]
  {
    assert [g][1..] == [];
    StripUnchanged(g.style);
    StripUnchanged(g.reply);
    StripUnchanged(g.critique);
  }

  lemma ExampleWellFormed(g: Suggestion)
    requires g == Suggestion("1", "幽默", "哈哈好的", "轻松化解")
    ensures WellFormed(g)
  {
    MissingCharacter(g.style, OptionMarker, 0);
    MissingCharacter(g.reply, OptionMarker, 0);
    MissingCharacter(g.reply, ReplyMarker, 2);
    MissingCharacter(g.reply, CritiqueMarker, 2);
    MissingCharacter(g.critique, OptionMarker, 0);
    MissingCharacter(g.critique, ReplyMarker, 2);
    MissingCharacter(g.critique, CritiqueMarker, 2);
    assert !IsSpace(g.reply[0]) && g.reply[0] in g.reply;
  }

  lemma ExampleRendered(g: Suggestion)
    requires g == Suggestion("1", "幽默", "哈哈好的", "轻松化解")
    ensures Render([g]) == "选项1风格：幽默\n回复：哈哈好的\n点评：轻松化解"
  {
    assert [g][1..] == [];
  }
}
