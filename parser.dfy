/**
 * The response parser of app.py (`parse_ai_response`, lines 156-216). It
 * rewrites spelled-out option ordinals, cuts the completion at every "选项"
 * ("option"), reads a (style, reply, analysis) triple out of each fragment,
 * keeps the fragments whose reply is non-empty, and falls back to a single
 * entry holding the whole text when none is left. Every entry is tagged with
 * a CSS class derived from the mode alone.
 */
module ResponseParser {
  import opened Wrappers
  import opened PyStrings

  /** One parsed suggestion, as the page renders it. */
  datatype Entry = Entry(style: string, reply: string, analysis: string, css: string)

  /** The three fields read out of one fragment. */
  datatype Fields = Fields(style: string, reply: string, analysis: string)

  // Markers the parser looks for.
  const OptionMarker := "选项"
  const ReplyMarker := "回复："
  const CritiqueMarker := "点评："
  const AnalysisMarker := "解析："
  const StyleWord := "风格"
  const Colon := "："
  const Newline := "\n"

  // Fixed field values.
  const DefaultStyle := "通用回复"
  const NoStyle := "N/A"
  const NoAnalysis := "暂无分析"
  const SelfAnalysis := "请自行分析"
  const FallbackStyle := "原始回复"
  const FallbackAnalysis := "格式未能识别，显示原始回复。"

  /** The CSS class every entry carries: a function of the mode alone, with
      every unknown mode styled as "normal" (app.py:163-172). */
  function CssClass(mode: string): (css: string)
    ensures css == "dating" <==> mode == "Dating"
    ensures css == "sales" <==> mode == "Sales"
    ensures css == "reply_post" <==> mode == "Reply_Post"
    ensures css == "normal" <==> mode !in {"Dating", "Sales", "Reply_Post"}
  {
    if mode == "Dating" then "dating"
    else if mode == "Sales" then "sales"
    else if mode == "Normal" then "normal"
    else if mode == "Reply_Post" then "reply_post"
    else "normal"
  }

  /** Spelled-out ordinals "选项一/二/三" become "\n选项1/2/3" (app.py:160):
      none is left afterwards. */
  function Normalize(text: string): (r: string)
    ensures !Contains(r, "选项一") && !Contains(r, "选项二") && !Contains(r, "选项三")
  {
    OrdinalsRewritten(text);
    Replace(Replace(Replace(text, "选项一", "\n选项1"), "选项二", "\n选项2"), "选项三", "\n选项3")
  }

  /** The fragments the loop walks over: a split at "选项" when there is one,
      the whole text otherwise (app.py:161). */
  function Fragments(normalized: string): (parts: seq<string>)
    ensures parts == Split(normalized, OptionMarker)
  {
    if Contains(normalized, OptionMarker) then Split(normalized, OptionMarker)
    else
      SplitAbsent(normalized, OptionMarker);
      [normalized]
  }

  /** The first of `lines` that mentions `word`: element [0] of the filtered
      list at app.py:183 and app.py:200. */
  function FirstLineWith(lines: seq<string>, word: string): (r: Option<string>)
    ensures r.None? <==> forall k | 0 <= k < |lines| :: !Contains(lines[k], word)
    ensures r.Some? ==> exists k | 0 <= k < |lines| ::
      (lines[k] == r.value && Contains(r.value, word) && forall j | 0 <= j < k :: !Contains(lines[j], word))
  {
    if lines == [] then None
    else if Contains(lines[0], word) then Some(lines[0])
    else
      var r := FirstLineWith(lines[1..], word);
      if r.Some? then
        var k :| 0 <= k < |lines[1..]| &&
          (lines[1..][k] == r.value && Contains(r.value, word) && forall j | 0 <= j < k :: !Contains(lines[1..][j], word));
        assert lines[k + 1] == r.value;
        r
      else r
  }

  /** The style label of a fragment: what follows the last "：" on its first
      line mentioning "风格", trimmed, or "N/A" without such a line
      (app.py:183-187, 200-204). */
  function StyleOf(part: string): (style: string)
    ensures !Contains(part, StyleWord) ==> style == NoStyle
    ensures !Contains(style, Colon)
  {
    match FirstLineWith(Split(part, Newline), StyleWord)
    case None =>
      MissingCharacter(NoStyle, Colon, 0);
      NoStyle
    case Some(line) =>
      StyleLineInPart(part, line);
      LabelOf(line)
  }

  /** `line.split("：")[-1].strip()`: what follows the line's last full-width
      colon, or the whole line without one, trimmed. */
  function LabelOf(line: string): (tag: string)
    ensures !Contains(tag, Colon)
  {
    StrippedPieceLacks(line, Colon);
    var pieces := Split(line, Colon);
    Strip(pieces[|pieces| - 1])
  }

  /** The line `StyleOf` reads mentions "风格", so the fragment does too. */
  lemma StyleLineInPart(part: string, line: string)
    requires FirstLineWith(Split(part, Newline), StyleWord) == Some(line)
    ensures Contains(part, StyleWord)
  {
    SplitPartsOccur(part, Newline);
    ContainsTransitive(part, line, StyleWord);
  }

  /** `part.split(marker)[1]`: what follows the first `marker`, up to the next. */
  function After(part: string, marker: string): string
    requires marker != [] && Contains(part, marker)
  {
    SplitPresent(part, marker);
    Split(part, marker)[1]
  }

  /** `part.split(marker)[0]`: what precedes the first `marker`. */
  function Before(part: string, marker: string): string
    requires marker != []
  {
    Split(part, marker)[0]
  }

  /** What follows the first `marker` holds no `marker`. */
  lemma AfterLacksMarker(part: string, marker: string)
    requires marker != [] && Contains(part, marker)
    ensures !Contains(After(part, marker), marker)
  {
    SplitPartsFree(part, marker);
  }

  /** What precedes the first `marker` lacks whatever `part` lacks. */
  lemma BeforeLacks(part: string, marker: string, q: string)
    requires marker != [] && !Contains(part, q)
    ensures !Contains(Before(part, marker), q)
  {
    SplitPartsOccur(part, marker);
    AbsentFromPart(part, Before(part, marker), q);
  }

  /** The label after the last full-width colon of a line holds none, even
      trimmed. */
  lemma StrippedPieceLacks(line: string, colon: string)
    requires colon == Colon
    ensures var pieces := Split(line, colon); !Contains(Strip(pieces[|pieces| - 1]), colon)
  {
    var pieces := Split(line, colon);
    SplitPartsFree(line, colon);
    StripLacks(pieces[|pieces| - 1], colon);
  }

  /** When the first line mentioning "风格" has a full-width colon, the label
      is what follows its last one, trimmed: `split("：")[-1].strip()` at
      app.py:183-185 (and 200-202). */
  lemma StyleAfterLastColon(part: string, x: string, s: string)
    requires FirstLineWith(Split(part, Newline), StyleWord) == Some(x + Colon + s)
    requires !Contains(s, Colon)
    ensures StyleOf(part) == Strip(s)
  {
    SplitLastPart(x, Colon, s);
  }

  /** When the first line mentioning "风格" has no full-width colon, the label
      is that whole line, trimmed. */
  lemma StyleOfColonFreeLine(part: string, line: string)
    requires FirstLineWith(Split(part, Newline), StyleWord) == Some(line)
    requires !Contains(line, Colon)
    ensures StyleOf(part) == Strip(line)
  {
    SplitAbsent(line, Colon);
  }

  /** "1：风格：幽默" is labelled "幽默", the text after the second colon. */
  lemma StyleOfTwoColons(part: string)
    requires part == "1：风格" + Colon + "幽默"
    ensures StyleOf(part) == "幽默"
  {
    MissingCharacter(part, Newline, 0);
    SplitAbsent(part, Newline);
    assert OccursAt(part, StyleWord, 2);
    assert FirstLineWith([part], StyleWord) == Some(part);
    MissingCharacter("幽默", Colon, 0);
    StyleAfterLastColon(part, "1：风格", "幽默");
    assert !IsSpace('幽') && !IsSpace('默');
    StripUnchanged("幽默");
  }

  /** The fields of one fragment (app.py:175-208): with a reply marker and a
      critique or analysis marker, the reply runs up to the critique (or,
      without one, the analysis) marker and the analysis follows it; with a
      reply marker alone, the reply follows it; otherwise the whole fragment is
      the reply. */
  function ExtractFields(part: string): (f: Fields)
    ensures !Contains(f.reply, ReplyMarker)
    ensures !Contains(f.style, Colon)
  {
    if Contains(part, ReplyMarker) && (Contains(part, CritiqueMarker) || Contains(part, AnalysisMarker)) then
      var marker := if Contains(part, CritiqueMarker) then CritiqueMarker else AnalysisMarker;
      var reply := Before(After(part, ReplyMarker), marker);
      AfterLacksMarker(part, ReplyMarker);
      BeforeLacks(After(part, ReplyMarker), marker, ReplyMarker);
      StripLacks(reply, ReplyMarker);
      Fields(StyleOf(part), Strip(reply), Strip(After(part, marker)))
    else if Contains(part, ReplyMarker) then
      AfterLacksMarker(part, ReplyMarker);
      StripLacks(After(part, ReplyMarker), ReplyMarker);
      Fields(StyleOf(part), Strip(After(part, ReplyMarker)), SelfAnalysis)
    else
      StripLacks(part, ReplyMarker);
      MissingCharacter(DefaultStyle, Colon, 0);
      Fields(DefaultStyle, Strip(part), NoAnalysis)
  }

  /** The entry one fragment contributes: none when its reply is empty
      (app.py:210-211). */
  function EntryOf(part: string, css: string): seq<Entry>
  {
    var f := ExtractFields(part);
    if f.reply != [] then [Entry(f.style, f.reply, f.analysis, css)] else []
  }

  /** The entries of `parts`, in order (the `results` list after the loop). */
  function Collect(parts: seq<string>, css: string): seq<Entry>
  {
    if parts == [] then []
    else Collect(parts[..|parts| - 1], css) + EntryOf(parts[|parts| - 1], css)
  }

  /** The single entry shown when nothing was recognised (app.py:213-214). */
  function Fallback(normalized: string, css: string): (e: Entry)
    ensures e.reply == [] <==> AllSpace(normalized)
  {
    StripBlank(normalized);
    Entry(FallbackStyle, Strip(normalized), FallbackAnalysis, css)
  }

  /** `parse_ai_response(text, mode)` (app.py:156-216). */
  function Parse(text: string, mode: string): (r: seq<Entry>)
    ensures forall e | e in r :: e.reply != [] && e.css == CssClass(mode)
  {
    var normalized := Normalize(text);
    var css := CssClass(mode);
    var entries := Collect(Fragments(normalized), css);
    CollectWellFormed(Fragments(normalized), css);
    if entries == [] && Strip(normalized) != [] then [Fallback(normalized, css)] else entries
  }

  /** The body of the loop at app.py:175-208 for one fragment: start from the
      generic defaults and overwrite them according to the markers found. */
  method ReadFragment(part: string) returns (style: string, reply: string, analysis: string)
    ensures Fields(style, reply, analysis) == ExtractFields(part)
    ensures !Contains(part, ReplyMarker) ==> style == DefaultStyle && reply == Strip(part)
  {
    style := DefaultStyle;
    reply := Strip(part);
    analysis := NoAnalysis;
    if Contains(part, ReplyMarker) && (Contains(part, CritiqueMarker) || Contains(part, AnalysisMarker)) {
      style := StyleOf(part);
      if Contains(part, CritiqueMarker) {
        reply := Strip(Before(After(part, ReplyMarker), CritiqueMarker));
        analysis := Strip(After(part, CritiqueMarker));
      } else if Contains(part, AnalysisMarker) {
        reply := Strip(Before(After(part, ReplyMarker), AnalysisMarker));
        analysis := Strip(After(part, AnalysisMarker));
      }
    } else if Contains(part, ReplyMarker) {
      style := StyleOf(part);
      reply := Strip(After(part, ReplyMarker));
      analysis := SelfAnalysis;
    }
  }

  /** The parser as the source runs it: a loop over the fragments that appends
      to `results` every fragment whose reply is non-empty, then the fallback.
      What the result satisfies is proved about `Parse` below (ParseBlank,
      ParseFallback, ParseBound and the contract of `Parse`). */
  method ParseResponse(text: string, mode: string) returns (results: seq<Entry>)
    ensures results == Parse(text, mode)
  {
    results := [];
    var normalized := Normalize(text);
    var parts := Fragments(normalized);
    var css := CssClass(mode);
    for k := 0 to |parts|
      invariant results == Collect(parts[..k], css)
    {
      var style, reply, analysis := ReadFragment(parts[k]);
      CollectStep(parts, k, css);
      if reply != [] {
        results := results + [Entry(style, reply, analysis, css)];
      }
    }
    assert parts[..|parts|] == parts;
    if results == [] && Strip(normalized) != [] {
      results := results + [Entry(FallbackStyle, Strip(normalized), FallbackAnalysis, css)];
    }
  }

  // ---------------------------------------------------------------------
  // Normalisation
  // ---------------------------------------------------------------------

  /** A replacement "\n选项<d>" is sealed against the ordinal "选项<e>" when the
      two differ in their last character: it starts with a line break and no
      ordinal can begin inside it. */
  lemma OrdinalSealed(d: char, e: char)
    requires d != e && d != '选' && e != '\n'
    ensures Sealed("\n选项" + [d], "选项" + [e])
  {
    var rep, q := "\n选项" + [d], "选项" + [e];
    assert rep[1..][..|q|] == "选项" + [d] && (rep[1..][..|q|])[2] != q[2];
    assert rep[2..] == "项" + [d] && q[..2] == "选项" && rep[2..][0] != q[..2][0];
    assert rep[3..] == [d] && q[..1] == "选";
    assert !Compatible(rep[1..], q) && !Compatible(rep[2..], q) && !Compatible(rep[3..], q);
    assert rep[0] == '\n' && q == ['选', '项', e];
  }

  lemma OrdinalsSealed()
    ensures Sealed("\n选项1", "选项一") && Sealed("\n选项2", "选项一") && Sealed("\n选项3", "选项一")
    ensures Sealed("\n选项2", "选项二") && Sealed("\n选项3", "选项二") && Sealed("\n选项3", "选项三")
  {
    OrdinalSealed('1', '一');
    OrdinalSealed('2', '一');
    OrdinalSealed('3', '一');
    OrdinalSealed('2', '二');
    OrdinalSealed('3', '二');
    OrdinalSealed('3', '三');
    assert "\n选项" + ['1'] == "\n选项1" && "\n选项" + ['2'] == "\n选项2" && "\n选项" + ['3'] == "\n选项3";
    assert "选项" + ['一'] == "选项一" && "选项" + ['二'] == "选项二" && "选项" + ['三'] == "选项三";
  }

  /** Text without spelled-out ordinals is left as it is (app.py:160). */
  lemma NormalizeCanonical(text: string)
    requires !Contains(text, "选项一") && !Contains(text, "选项二") && !Contains(text, "选项三")
    ensures Normalize(text) == text
  {
    ReplaceAbsent(text, "选项一", "\n选项1");
    ReplaceAbsent(text, "选项二", "\n选项2");
    ReplaceAbsent(text, "选项三", "\n选项3");
  }

  /** The three replacements of `Normalize` leave no spelled-out ordinal:
      each replacement is sealed against the ordinals still to come and
      against its own. */
  lemma OrdinalsRewritten(text: string)
    ensures var r := Replace(Replace(Replace(text, "选项一", "\n选项1"), "选项二", "\n选项2"), "选项三", "\n选项3");
      !Contains(r, "选项一") && !Contains(r, "选项二") && !Contains(r, "选项三")
  {
    OrdinalsSealed();
    var t1 := Replace(text, "选项一", "\n选项1");
    var t2 := Replace(t1, "选项二", "\n选项2");
    ReplaceLeavesOut(text, "选项一", "\n选项1", "选项一");
    ReplaceLeavesOut(t1, "选项二", "\n选项2", "选项一");
    ReplaceLeavesOut(t2, "选项三", "\n选项3", "选项一");
    ReplaceLeavesOut(t1, "选项二", "\n选项2", "选项二");
    ReplaceLeavesOut(t2, "选项三", "\n选项3", "选项二");
    ReplaceLeavesOut(t2, "选项三", "\n选项3", "选项三");
  }

  /** Normalising twice is normalising once. */
  lemma NormalizeIdempotent(text: string)
    ensures Normalize(Normalize(text)) == Normalize(text)
  {
    NormalizeCanonical(Normalize(text));
  }

  /** Normalisation turns neither blank text into non-blank text nor the
      other way round. */
  lemma NormalizeBlank(text: string)
    ensures AllSpace(Normalize(text)) <==> AllSpace(text)
  {
    var t1 := Replace(text, "选项一", "\n选项1");
    var t2 := Replace(t1, "选项二", "\n选项2");
    assert !IsSpace('选');
    assert '选' in "\n选项1" && '选' in "\n选项2" && '选' in "\n选项3";
    ReplaceBlank(text, "选项一", "\n选项1");
    ReplaceBlank(t1, "选项二", "\n选项2");
    ReplaceBlank(t2, "选项三", "\n选项3");
    if AllSpace(text) {
      MissingCharacter(text, "选项一", 0);
      MissingCharacter(text, "选项二", 0);
      MissingCharacter(text, "选项三", 0);
      NormalizeCanonical(text);
    }
  }

  // ---------------------------------------------------------------------
  // Fragments and the collected entries
  // ---------------------------------------------------------------------

  /** Collecting is done fragment by fragment, in order. */
  lemma {:induction false} CollectAppend(p1: seq<string>, p2: seq<string>, css: string)
    ensures Collect(p1 + p2, css) == Collect(p1, css) + Collect(p2, css)
    decreases |p2|
  {
    if p2 == [] {
      assert p1 + p2 == p1;
    } else {
      var init := p2[..|p2| - 1];
      CollectAppend(p1, init, css);
      CollectAppendStep(p1, p2, css);
    }
  }

  /** The step of `CollectAppend`: one more fragment at the end of `p2`. */
  lemma CollectAppendStep(p1: seq<string>, p2: seq<string>, css: string)
    requires p2 != []
    requires Collect(p1 + p2[..|p2| - 1], css) == Collect(p1, css) + Collect(p2[..|p2| - 1], css)
    ensures Collect(p1 + p2, css) == Collect(p1, css) + Collect(p2, css)
  {
    var init, e := p2[..|p2| - 1], EntryOf(p2[|p2| - 1], css);
    CollectJoinedLast(p1, p2, css);
    CollectLast(p2, css);
    var a, b := Collect(p1, css), Collect(init, css);
    assert a + b + e == a + (b + e);
  }

  /** The last fragment of `p1 + p2` is the last of `p2`. */
  lemma CollectJoinedLast(p1: seq<string>, p2: seq<string>, css: string)
    requires p2 != []
    ensures Collect(p1 + p2, css) == Collect(p1 + p2[..|p2| - 1], css) + EntryOf(p2[|p2| - 1], css)
  {
    var q := p1 + p2;
    assert q[..|q| - 1] == p1 + p2[..|p2| - 1];
    assert q[|q| - 1] == p2[|p2| - 1];
    CollectLast(q, css);
  }

  /** Every collected entry has a non-empty reply and the given class, and
      there is at most one per fragment. */
  lemma {:induction false} CollectWellFormed(parts: seq<string>, css: string)
    ensures |Collect(parts, css)| <= |parts|
    ensures forall e | e in Collect(parts, css) :: e.reply != [] && e.css == css
    decreases |parts|
  {
    if parts != [] {
      CollectWellFormed(parts[..|parts| - 1], css);
    }
  }

  /** One more fragment adds its own entry, if any, at the end. */
  lemma CollectStep(parts: seq<string>, k: nat, css: string)
    requires k < |parts|
    ensures Collect(parts[..k + 1], css) == Collect(parts[..k], css) + EntryOf(parts[k], css)
  {
    assert parts[..k + 1][..k] == parts[..k];
  }

  /** The last fragment contributes its entries last. */
  lemma CollectLast(parts: seq<string>, css: string)
    requires parts != []
    ensures Collect(parts, css) == Collect(parts[..|parts| - 1], css) + EntryOf(parts[|parts| - 1], css)
  {
  }

  /** A single fragment contributes its own entry, if any. */
  lemma CollectOne(part: string, css: string)
    ensures Collect([part], css) == EntryOf(part, css)
  {
    assert [part][..0] == [];
  }

  // ---------------------------------------------------------------------
  // Properties of the parser
  // ---------------------------------------------------------------------

  /** The result is empty exactly when the text is blank (app.py:210, 213). */
  lemma ParseBlank(text: string, mode: string)
    ensures Parse(text, mode) == [] <==> AllSpace(text)
  {
    var normalized := Normalize(text);
    NormalizeBlank(text);
    StripBlank(normalized);
    if AllSpace(text) {
      MissingCharacter(text, "选项一", 0);
      MissingCharacter(text, "选项二", 0);
      MissingCharacter(text, "选项三", 0);
      MissingCharacter(text, OptionMarker, 0);
      MissingCharacter(text, ReplyMarker, 0);
      NormalizeCanonical(text);
      StripBlank(text);
      CollectOne(text, CssClass(mode));
    }
  }

  /** The class of every entry does not depend on the text. */
  lemma ParseCssIndependentOfText(text1: string, text2: string, mode: string)
    ensures forall e1, e2 | e1 in Parse(text1, mode) && e2 in Parse(text2, mode) :: e1.css == e2.css
  {
  }

  /** There are at most as many entries as "选项" cuts the normalised text
      into, that is, one more than its number of "选项". */
  lemma ParseBound(text: string, mode: string)
    ensures |Parse(text, mode)| <= Count(Normalize(text), OptionMarker) + 1
  {
    var normalized := Normalize(text);
    SplitLength(normalized, OptionMarker);
    CollectWellFormed(Fragments(normalized), CssClass(mode));
  }

  /** The fallback entry appears when no fragment produced a reply and the
      text is not blank; its reply is the normalised text, trimmed. Otherwise
      the entries are those of the fragments (app.py:213-214). */
  lemma ParseFallback(text: string, mode: string)
    ensures Collect(Fragments(Normalize(text)), CssClass(mode)) == [] && !AllSpace(text) ==>
      Parse(text, mode) == [Fallback(Normalize(text), CssClass(mode))]
    ensures Collect(Fragments(Normalize(text)), CssClass(mode)) != [] ==>
      Parse(text, mode) == Collect(Fragments(Normalize(text)), CssClass(mode))
  {
    NormalizeBlank(text);
    StripBlank(Normalize(text));
  }

  /** Non-blank text with neither "选项" nor "回复：" yields one generic entry
      holding the whole text, trimmed (app.py:161, 175-177, 210-211). */
  lemma ParseMarkerFree(text: string, mode: string)
    requires !Contains(text, OptionMarker) && !Contains(text, ReplyMarker) && !AllSpace(text)
    ensures Parse(text, mode) == [Entry(DefaultStyle, Strip(text), NoAnalysis, CssClass(mode))]
  {
    assert "选项一" == OptionMarker + "一" && "选项二" == OptionMarker + "二" && "选项三" == OptionMarker + "三";
    if Contains(text, "选项一") { ContainsPrefixOfPattern(text, OptionMarker, "一"); }
    if Contains(text, "选项二") { ContainsPrefixOfPattern(text, OptionMarker, "二"); }
    if Contains(text, "选项三") { ContainsPrefixOfPattern(text, OptionMarker, "三"); }
    NormalizeCanonical(text);
    StripBlank(text);
    CollectOne(text, CssClass(mode));
  }

  // ---------------------------------------------------------------------
  // Field extraction
  // ---------------------------------------------------------------------

  /** `part.split(m)[1]` is the text between the first and the second `m`. */
  lemma AfterFirst(x: string, m: string, y: string)
    requires m != [] && !Contains(x + m[..|m| - 1], m)
    ensures Contains(x + m + y, m) && After(x + m + y, m) == Before(y, m)
  {
    OccursInMiddle(x, m, y);
    SplitAfter(x, m, y);
  }

  /** `part.split(m)[0]` is the text before the first `m`. */
  lemma BeforeFirst(x: string, m: string, y: string)
    requires m != [] && !Contains(x + m[..|m| - 1], m)
    ensures Before(x + m + y, m) == x
  {
    SplitAfter(x, m, y);
  }

  /** A fragment with "回复：" and neither "点评：" nor "解析：": the reply is the
      text between the first and the second "回复：", trimmed, and the analysis
      is the fixed "请自行分析" (app.py:198-206). */
  lemma ReadReplyOnly(x: string, y: string)
    requires !Contains(x + "回复", ReplyMarker)
    requires !Contains(x + ReplyMarker + y, CritiqueMarker) && !Contains(x + ReplyMarker + y, AnalysisMarker)
    ensures ExtractFields(x + ReplyMarker + y)
      == Fields(StyleOf(x + ReplyMarker + y), Strip(Before(y, ReplyMarker)), SelfAnalysis)
  {
    assert ReplyMarker[..|ReplyMarker| - 1] == "回复";
    AfterFirst(x, ReplyMarker, y);
  }

  /** "回复：" cannot start inside `r + m` when `r` lacks it and `m` is the
      critique or analysis marker: no suffix of "回复：" begins `m`. */
  lemma ReplyMarkerNotAcross(r: string, m: string, a: string, j: nat)
    requires m == CritiqueMarker || m == AnalysisMarker
    requires !Contains(r, ReplyMarker) && j < |r + m|
    ensures !OccursAt(r + m + a, ReplyMarker, j)
  {
    var s := r + m + a;
    if j + |ReplyMarker| <= |s| {
      if j + |ReplyMarker| <= |r| {
        assert s[j..j + |ReplyMarker|] == r[j..j + |ReplyMarker|];
        assert !OccursAt(r, ReplyMarker, j);
      } else if |r| <= j {
        MarkerLetters(m);
        assert s[j..j + |ReplyMarker|][0] == m[j - |r|] != ReplyMarker[0];
      } else {
        MarkerLetters(m);
        assert s[j..j + |ReplyMarker|][|r| - j] == m[0] != ReplyMarker[|r| - j];
      }
    }
  }

  /** No letter of "点评：" or "解析：" is the "回" that opens "回复：", and
      neither opens with the "复" or "：" that follow it. */
  lemma MarkerLetters(m: string)
    requires m == CritiqueMarker || m == AnalysisMarker
    ensures |m| == |ReplyMarker| == 3
    ensures forall i | 0 <= i < 3 :: m[i] != ReplyMarker[0]
    ensures m[0] != ReplyMarker[1] && m[0] != ReplyMarker[2]
  {
  }

  /** What follows the first "回复：" of "<x>回复：<r><m><a>", up to the next
      "回复：", is `r`, then `m`, then what precedes the first "回复：" of `a`. */
  lemma AfterReplyMarker(x: string, r: string, m: string, a: string)
    requires m == CritiqueMarker || m == AnalysisMarker
    requires !Contains(x + "回复", ReplyMarker) && !Contains(r, ReplyMarker)
    ensures var part := x + ReplyMarker + r + m + a;
      Contains(part, ReplyMarker) && After(part, ReplyMarker) == r + m + Before(a, ReplyMarker)
  {
    var w := r + m;
    var part := x + ReplyMarker + r + m + a;
    assert part == x + ReplyMarker + (w + a);
    assert ReplyMarker[..|ReplyMarker| - 1] == "回复";
    AfterFirst(x, ReplyMarker, w + a);
    forall j: nat | j < |w| ensures !OccursAt(w + a, ReplyMarker, j) {
      ReplyMarkerNotAcross(r, m, a, j);
    }
    SplitKeepsPrefix(w, a, ReplyMarker);
  }

  /** A fragment "<x>回复：<r>解析：<a>" without "点评：": the reply is `r` and the
      analysis what follows "解析：" up to the next one, both trimmed; "解析："
      stands in for the missing "点评：" (app.py:193-195). Later "回复：" lines
      in `a` change neither. */
  lemma ReadWithAnalysis(x: string, r: string, a: string)
    requires !Contains(x + "回复", ReplyMarker) && !Contains(r, ReplyMarker)
    requires !Contains(x + ReplyMarker + r + "解析", AnalysisMarker)
    requires !Contains(x + ReplyMarker + r + AnalysisMarker + a, CritiqueMarker)
    ensures var part := x + ReplyMarker + r + AnalysisMarker + a;
      ExtractFields(part) == Fields(StyleOf(part), Strip(r), Strip(Before(a, AnalysisMarker)))
  {
    AfterReplyMarker(x, r, AnalysisMarker, a);
    assert AnalysisMarker[..|AnalysisMarker| - 1] == "解析";
    assert x + ReplyMarker + r + "解析" == (x + ReplyMarker) + (r + "解析");
    ContainsInPart(x + ReplyMarker, r + "解析", AnalysisMarker);
    BeforeFirst(r, AnalysisMarker, Before(a, ReplyMarker));
    AfterFirst(x + ReplyMarker + r, AnalysisMarker, a);
  }

  /** A fragment "<x>回复：<r>点评：<a>", in whatever layout and whether or not
      it also holds "解析：" or later "回复：" lines: the reply is `r` and the
      analysis what follows "点评：" up to the next one, both trimmed
      (app.py:180-192). */
  lemma ReadWithCritique(x: string, r: string, a: string)
    requires !Contains(x + "回复", ReplyMarker) && !Contains(r, ReplyMarker)
    requires !Contains(x + ReplyMarker + r + "点评", CritiqueMarker)
    ensures var part := x + ReplyMarker + r + CritiqueMarker + a;
      ExtractFields(part) == Fields(StyleOf(part), Strip(r), Strip(Before(a, CritiqueMarker)))
  {
    AfterReplyMarker(x, r, CritiqueMarker, a);
    assert CritiqueMarker[..|CritiqueMarker| - 1] == "点评";
    assert x + ReplyMarker + r + "点评" == (x + ReplyMarker) + (r + "点评");
    ContainsInPart(x + ReplyMarker, r + "点评", CritiqueMarker);
    BeforeFirst(r, CritiqueMarker, Before(a, ReplyMarker));
    AfterFirst(x + ReplyMarker + r, CritiqueMarker, a);
  }

  /** A completion that is nothing but the reply marker has an empty reply, so
      it is shown whole as the fallback entry (app.py:198-206, 213-214). */
  lemma ParseBareReplyMarker(mode: string)
    ensures Parse("回复：", mode) == [Entry(FallbackStyle, "回复：", FallbackAnalysis, CssClass(mode))]
  {
    BareReplyMarker("回复：", mode);
  }

  lemma BareReplyMarker(text: string, mode: string)
    requires text == "回复："
    ensures Parse(text, mode) == [Entry(FallbackStyle, text, FallbackAnalysis, CssClass(mode))]
  {
    var css := CssClass(mode);
    BareReplyMarkerFree(text);
    NormalizeCanonical(text);
    BareReplyFields(text);
    CollectOne(text, css);
    assert text[0] == '回' && text[|text| - 1] == '：';
    StripUnchanged(text);
  }

  lemma BareReplyMarkerFree(text: string)
    requires text == "回复："
    ensures !Contains(text, "选项一") && !Contains(text, "选项二") && !Contains(text, "选项三")
    ensures !Contains(text, OptionMarker) && !Contains(text, CritiqueMarker) && !Contains(text, AnalysisMarker)
  {
    assert '选' !in text && '点' !in text && '解' !in text;
    MissingCharacter(text, "选项一", 0);
    MissingCharacter(text, "选项二", 0);
    MissingCharacter(text, "选项三", 0);
    MissingCharacter(text, OptionMarker, 0);
    MissingCharacter(text, CritiqueMarker, 0);
    MissingCharacter(text, AnalysisMarker, 0);
  }

  lemma BareReplyFields(text: string)
    requires text == "回复："
    ensures ExtractFields(text).reply == []
  {
    BareReplyMarkerFree(text);
    assert text == [] + ReplyMarker + [];
    assert '回' !in "回复"[1..];
    MissingCharacter("回复", ReplyMarker, 2);
    ReadReplyOnly([], []);
    SplitAbsent([], ReplyMarker);
    StripBlank([]);
  }

  /** A completion that is nothing but the option marker is not recognised and
      is shown whole. */
  lemma ParseBareOptionMarker(mode: string)
    ensures Parse("选项", mode) == [Entry(FallbackStyle, "选项", FallbackAnalysis, CssClass(mode))]
  {
    var text := "选项";
    var css := CssClass(mode);
    BareMarkerFragments();
    NormalizeCanonical(text);
    StripUnchanged(text);
    CollectAppend([""], [""], css);
    CollectOne("", css);
    StripBlank("");
    assert ["", ""] == [""] + [""];
  }

  lemma BareMarkerFragments()
    ensures Fragments("选项") == ["", ""]
    ensures !Contains("选项", "选项一") && !Contains("选项", "选项二") && !Contains("选项", "选项三")
  {
    var text := "选项";
    assert OccursAt(text, OptionMarker, 0);
    assert IndexOf(text, OptionMarker) == Some(0);
    assert !Contains("", OptionMarker);
    assert Split("", OptionMarker) == [""];
  }
}
