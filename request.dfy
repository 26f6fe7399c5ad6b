/**
 * The pure parts of `get_ai_response` (app.py:219-312): the canned entries of
 * the demonstration mode, the choice of model, the data URI of an uploaded
 * image, the two prompt texts and the shape of the single chat message. The
 * chat-completion call itself is a function parameter (`complete`) returning
 * the completion text or `None` when the call raises; base64 encoding is a
 * function parameter (`encode`) as well.
 */
module ChatRequest {
  import opened Wrappers
  import opened PyStrings
  import opened ResponseParser
  import opened Prompts
  import FormatDirective

  newtype Byte = b: int | 0 <= b < 256

  /** An uploaded file: its bytes and its MIME type as the browser reports it. */
  datatype Image = Image(data: seq<Byte>, mimeType: string)

  /** One element of a multi-part message content (app.py:264-267). */
  datatype Part = TextPart(text: string) | ImageUrlPart(url: string)

  /** A message content: plain text, or a list of parts. */
  datatype Content = Text(text: string) | Parts(parts: seq<Part>)

  datatype Message = Message(role: string, content: Content)

  /** The arguments of `client.chat.completions.create` (app.py:290-295);
      the temperature, 0.7, is kept in tenths. */
  datatype Request = Request(model: string, messages: seq<Message>, temperatureTenths: nat, maxTokens: nat)

  /** Why a request could not be assembled: the MIME type has no '/', so
      indexing `split('/')[1]` at app.py:259 raises, outside any try. */
  datatype Error = MimeTypeWithoutSlash(mimeType: string)

  const VisionModel := "Qwen/Qwen-VL-Chat"
  const TemperatureTenths := 7
  const MaxTokens := 1500

  // ---------------------------------------------------------------------
  // Demonstration mode
  // ---------------------------------------------------------------------

  /** What the Reply_Post canned reply appends to the detail when there is an
      image, and the text after both. */
  const ImageNote := "(含图片内容)"
  const PostMockRest := "）这个观点非常具有启发性，但我们还可以从另一个维度思考，即其长期的社会影响。"

  /** The canned entries of the demonstration mode (app.py:228-239): one per
      known mode, tagged with the class the parser gives that mode
      (app.py:163-172) and with a non-empty reply; none for any other mode. */
  function MockEntries(mainMode: string, extra: string, hasImage: bool): (r: seq<Entry>)
    ensures |r| == if mainMode in {"Dating", "Sales", "Normal", "Reply_Post"} then 1 else 0
    ensures forall e | e in r :: e.reply != [] && e.css == CssClass(mainMode)
  {
    if mainMode == "Dating" then
      [Entry("💔 起死回生术", "你最近是不是在忙着拯救世界，都不理我了？", "幽默且不追问的试探，巧妙地给了台阶。", "dating")]
    else if mainMode == "Sales" then
      [Entry("💰 价值锚定法", "是的，价格确实不低，但您得到的是5年的稳定服务和专属售后，这能为您节省未来数万元的隐性成本。", "承认价格，但将客户关注点从价格转到长期收益。", "sales")]
    else if mainMode == "Normal" then
      [Entry("😀 轻松幽默式", "（面向 " + extra + "）这事儿就跟等外卖一样，急也没用，不如先去打局游戏。", "用日常梗缓解压力。", "normal")]
    else if mainMode == "Reply_Post" then
      var imageNote := if hasImage then ImageNote else "";
      [Entry("🚀 观点升华型", "（针对 " + extra + imageNote + PostMockRest, "在肯定原帖的基础上，提出了更高的思考层次。", "reply_post")]
    else
      []
  }

  /** The Normal and Reply_Post canned replies name the extra detail
      (app.py:235, 238). */
  lemma MockNamesDetail(mainMode: string, extra: string, hasImage: bool)
    requires mainMode in {"Normal", "Reply_Post"}
    ensures Contains(MockEntries(mainMode, extra, hasImage)[0].reply, extra)
  {
    var reply := MockEntries(mainMode, extra, hasImage)[0].reply;
    var lead := if mainMode == "Normal" then "（面向 " else "（针对 ";
    var tail := reply[|lead| + |extra|..];
    assert reply == lead + extra + tail;
    OccursInMiddle(lead, extra, tail);
  }

  /** The Reply_Post canned reply notes the image right after the detail
      exactly when there is one (app.py:237-238). */
  lemma MockNotesImage(extra: string, hasImage: bool)
    ensures Contains(MockEntries("Reply_Post", extra, hasImage)[0].reply, extra + ImageNote) <==> hasImage
  {
    if hasImage {
      var reply := MockEntries("Reply_Post", extra, true)[0].reply;
      assert reply == "（针对 " + (extra + ImageNote) + PostMockRest;
      OccursInMiddle("（针对 ", extra + ImageNote, PostMockRest);
    } else {
      var reply := MockEntries("Reply_Post", extra, false)[0].reply;
      forall j: nat ensures !OccursAt(reply, extra + ImageNote, j) {
        NoImageNote(extra, j);
      }
    }
  }

  /** Without an image no "(含图片内容)" follows the detail: the character
      after it is a full-width closing parenthesis. */
  lemma NoImageNote(extra: string, j: nat)
    ensures !OccursAt(MockEntries("Reply_Post", extra, false)[0].reply, extra + ImageNote, j)
  {
    var lead := "（针对 ";
    assert MockEntries("Reply_Post", extra, false)[0].reply == lead + extra + PostMockRest;
    NoteAndRestDisjoint(PostMockRest, ImageNote);
    FollowedBy(lead, extra, PostMockRest, ImageNote, j);
  }

  /** The text after the detail and the image note start with characters the
      other lacks. */
  lemma NoteAndRestDisjoint(rest: string, note: string)
    requires rest == PostMockRest && note == ImageNote
    ensures rest[0] !in note && note[0] !in rest
  {
    assert rest[0] == '）';
    assert note[0] == '(';
    assert forall k | 0 <= k < |rest| :: rest[k] >= '\U{3002}';
  }

  /** If `x + n` occurs in `lead + x + rest` and `n` is longer than `lead`,
      then either `rest` starts with a character of `n`, or `n` starts with a
      character of `rest`. */
  lemma FollowedBy(lead: string, x: string, rest: string, n: string, j: nat)
    requires |lead| < |n| && rest != []
    ensures OccursAt(lead + x + rest, x + n, j) ==> rest[0] in n || n[0] in rest
  {
    var s := lead + x + rest;
    if OccursAt(s, x + n, j) {
      var k := j + |x|;
      var m := |lead| + |x|;
      assert s[j..j + |x| + |n|] == x + n;
      assert forall i | 0 <= i < |n| :: s[k + i] == n[i];
      assert s[m] == rest[0];
      if j < |lead| {
        assert s[k + (m - k)] == n[m - k];
      } else {
        assert s[k] == rest[k - m];
      }
    }
  }

  // ---------------------------------------------------------------------
  // The image
  // ---------------------------------------------------------------------

  /** `mime.split('/')[1]`: the text between the first '/' and the next one,
      or `None` where Python raises IndexError (app.py:259). */
  function Subtype(mimeType: string): (r: Option<string>)
    ensures r.Some? <==> Contains(mimeType, "/")
  {
    // Two or more parts exactly when the separator occurs.
    if Contains(mimeType, "/") then
      SplitPresent(mimeType, "/");
      Some(Split(mimeType, "/")[1])
    else
      None
  }

  /** The data URI `data:image/<subtype>;base64,<payload>` of app.py:259, in
      the form of section 3 of RFC 2397. */
  function ImageUrl(image: Image, encode: seq<Byte> -> string): (r: Result<string, Error>)
    ensures r.Failure? <==> !Contains(image.mimeType, "/")
  {
    match Subtype(image.mimeType)
    case None => Failure(MimeTypeWithoutSlash(image.mimeType))
    case Some(subtype) => Success("data:image/" + subtype + ";base64," + encode(image.data))
  }

  /** For a MIME type "<type>/<subtype>" the URI names exactly that subtype and
      ends with the encoded bytes. */
  lemma ImageUrlOfMimeType(t: string, subtype: string, data: seq<Byte>, encode: seq<Byte> -> string)
    requires '/' !in t && '/' !in subtype
    ensures ImageUrl(Image(data, t + "/" + subtype), encode)
      == Success("data:image/" + subtype + ";base64," + encode(data))
  {
    assert "/"[..0] == [] && t + [] == t;
    MissingCharacter(t, "/", 0);
    SplitAfter(t, "/", subtype);
    MissingCharacter(subtype, "/", 0);
    SplitAbsent(subtype, "/");
  }

  /** The subtype placed in the URI never holds a '/', whatever the MIME type. */
  lemma SubtypeHasNoSlash(mimeType: string)
    requires Contains(mimeType, "/")
    ensures !Contains(Subtype(mimeType).value, "/")
  {
    SplitPartsFree(mimeType, "/");
  }

  // ---------------------------------------------------------------------
  // Prompts and the message
  // ---------------------------------------------------------------------

  /** The user's text in double quotes, as both prompts embed it. */
  function Quote(input: string): string {
    "\"" + input + "\""
  }

  // The three lines of the requested format, as both prompts spell them
  // (app.py:262, 280-282).
  const FormatHeadLine := "选项1风格：[简短风格名]"
  const FormatReplyLine := "回复：[内容]"
  const FormatCritiqueLine := "点评：[解析]"

  /** The format lines as the vision prompt writes them (app.py:262). */
  const FormatLines := FormatHeadLine + "\n" + FormatReplyLine + "\n" + FormatCritiqueLine

  /** The same lines as a suggestion with placeholders for its fields. */
  const DirectiveExample := FormatDirective.Suggestion("1", "[简短风格名]", "[内容]", "[解析]")

  const VisionBeforeInput := "\n\n【用户额外提供的文本信息】："
  const VisionBeforeFormat := "\n\n请结合图片和文本信息生成3个选项，并严格按照以下格式输出（纯文本）：\n\n"
  const VisionEnd := "\n\n(重复3次)"

  /** The prompt sent with an image (app.py:262): the instruction, the
      user's text in double quotes, then the format lines. */
  function VisionPrompt(instruction: string, input: string): (p: string)
    ensures Contains(p, instruction) && Contains(p, Quote(input)) && Contains(p, FormatLines)
  {
    var rest := VisionBeforeFormat + FormatLines + VisionEnd;
    var tail := VisionBeforeInput + Quote(input) + rest;
    OccursInMiddle([], instruction, tail);
    assert [] + instruction + tail == instruction + tail;
    OccursInMiddle(VisionBeforeInput, Quote(input), rest);
    ContainsInPart(instruction, tail, Quote(input));
    OccursInMiddle(VisionBeforeFormat, FormatLines, VisionEnd);
    ContainsInPart(VisionBeforeInput + Quote(input), rest, FormatLines);
    ContainsInPart(instruction, tail, FormatLines);
    instruction + tail
  }

  /** The twelve spaces of indentation the triple-quoted prompt keeps on
      every line, blank ones included (app.py:273-285). */
  const Indent := "            "

  const TextLead := "\n" + Indent
  const TextBeforeInput := "\n" + Indent + "\n" + Indent + "【待处理内容】："
  /** The format lines as the text prompt writes them: each indented. */
  const IndentedFormatLines := Indent + FormatHeadLine + "\n" + Indent + FormatReplyLine + "\n" + Indent + FormatCritiqueLine

  const TextBeforeFormat := "\n" + Indent + "\n"
    + Indent + "请生成 3 个选项，并严格按照以下格式输出（纯文本）：\n"
    + Indent + "\n"
  const TextEnd := "\n" + Indent + "\n"
    + Indent + "(重复3次)\n"
    + Indent

  /** The prompt sent without an image: the triple-quoted f-string of
      app.py:273-285, which starts with a line break and keeps the source's
      indentation on every line. It holds the instruction, the user's text in
      double quotes, and the format lines, each indented. */
  function TextPrompt(instruction: string, input: string): (p: string)
    ensures Contains(p, instruction) && Contains(p, Quote(input)) && Contains(p, IndentedFormatLines)
  {
    var rest := TextBeforeFormat + IndentedFormatLines + TextEnd;
    var tail := TextBeforeInput + Quote(input) + rest;
    OccursInMiddle(TextLead, instruction, tail);
    OccursInMiddle(TextBeforeInput, Quote(input), rest);
    ContainsInPart(TextLead + instruction, tail, Quote(input));
    OccursInMiddle(TextBeforeFormat, IndentedFormatLines, TextEnd);
    ContainsInPart(TextBeforeInput + Quote(input), rest, IndentedFormatLines);
    ContainsInPart(TextLead + instruction, tail, IndentedFormatLines);
    TextLead + instruction + tail
  }

  /** The prompt text of a message content: the text itself, or its first
      text part. */
  function PromptOf(c: Content): string {
    match c
    case Text(t) => t
    case Parts(ps) => if ps != [] && ps[0].TextPart? then ps[0].text else ""
  }

  /** The request `get_ai_response` sends outside the demonstration mode
      (app.py:250-295): exactly one user message; an image overrides the chosen
      text model with the vision model and sends the vision prompt and the data
      URI, in that order; otherwise the text prompt is sent alone. Assembly
      fails exactly when the image's MIME type has no '/'. The prompt sent
      carries the system instruction and the user's text in double quotes. */
  function BuildRequest(mainMode: string, subMode: string, input: string, extra: string,
                        image: Option<Image>, textModel: string, encode: seq<Byte> -> string): (r: Result<Request, Error>)
    ensures r.Failure? <==> image.Some? && !Contains(image.value.mimeType, "/")
    ensures r.Success? ==>
      && r.value.model == (if image.Some? then VisionModel else textModel)
      && |r.value.messages| == 1 && r.value.messages[0].role == "user"
      && r.value.temperatureTenths == 7 && r.value.maxTokens == 1500
      && r.value.messages[0].content == (if image.Some? then
           Parts([TextPart(VisionPrompt(SystemPrompt(mainMode, subMode, extra), input)),
                  ImageUrlPart(ImageUrl(image.value, encode).value)])
         else Text(TextPrompt(SystemPrompt(mainMode, subMode, extra), input)))
    ensures r.Success? ==>
      && Contains(PromptOf(r.value.messages[0].content), SystemPrompt(mainMode, subMode, extra))
      && Contains(PromptOf(r.value.messages[0].content), Quote(input))
  {
    var instruction := SystemPrompt(mainMode, subMode, extra);
    if image.Some? then
      match ImageUrl(image.value, encode)
      case Failure(e) => Failure(e)
      case Success(url) =>
        var content := Parts([TextPart(VisionPrompt(instruction, input)), ImageUrlPart(url)]);
        Success(Request(VisionModel, [Message("user", content)], TemperatureTenths, MaxTokens))
    else
      Success(Request(textModel, [Message("user", Text(TextPrompt(instruction, input)))], TemperatureTenths, MaxTokens))
  }

  /** The vision prompt spells out one option in exactly the format the parser
      reads (app.py:262). */
  lemma VisionPromptShowsFormat(instruction: string, input: string)
    ensures Contains(VisionPrompt(instruction, input), FormatDirective.Render([DirectiveExample]))
  {
    DirectiveExampleText();
  }

  /** The vision prompt's format lines are the rendering of one suggestion
      whose fields are the placeholders. */
  lemma DirectiveExampleText()
    ensures FormatDirective.Render([DirectiveExample]) == FormatLines
  {
    FormatDirective.RenderOne(DirectiveExample);
  }

  /** A model that echoed the vision prompt's format lines back would get one
      entry whose fields are the placeholders (app.py:156-216). */
  lemma DirectiveExampleParses(mode: string)
    ensures Parse(FormatLines, mode) == [Entry("[简短风格名]", "[内容]", "[解析]", CssClass(mode))]
  {
    var g := DirectiveExample;
    DirectiveExampleWellFormed();
    FormatDirective.ParseStrictOutput([g], mode);
    DirectiveExampleText();
    FormatDirective.ExpectedOne(g, CssClass(mode));
    DirectiveExampleStripped(g);
  }

  lemma DirectiveExampleStripped(g: FormatDirective.Suggestion)
    requires g == DirectiveExample
    ensures Strip(g.style) == "[简短风格名]"
    ensures Strip(g.reply) == "[内容]"
    ensures Strip(g.critique) == "[解析]"
  {
    Placeholder(g.style);
    Placeholder(g.reply);
    Placeholder(g.critique);
  }

  /** A placeholder in square brackets is its own `strip()`. */
  lemma Placeholder(t: string)
    requires t == "[简短风格名]" || t == "[内容]" || t == "[解析]"
    ensures Strip(t) == t
  {
    assert t[0] == '[' && t[|t| - 1] == ']';
    StripUnchanged(t);
  }

  lemma DirectiveExampleWellFormed()
    ensures FormatDirective.WellFormed(DirectiveExample)
  {
    var g := DirectiveExample;
    MissingCharacter(g.style, OptionMarker, 0);
    MissingCharacter(g.reply, OptionMarker, 0);
    MissingCharacter(g.reply, ReplyMarker, 2);
    MissingCharacter(g.reply, CritiqueMarker, 2);
    MissingCharacter(g.critique, OptionMarker, 0);
    MissingCharacter(g.critique, ReplyMarker, 2);
    MissingCharacter(g.critique, CritiqueMarker, 2);
    assert !IsSpace(g.reply[0]) && g.reply[0] in g.reply;
  }

  // ---------------------------------------------------------------------
  // The whole call
  // ---------------------------------------------------------------------

  /** `get_ai_response` (app.py:219-312). `clientAvailable` is false when the
      OpenAI package failed to import; `complete` stands for the chat
      completion, returning `None` where the call raises (the except branch at
      app.py:299-312 returns []). A failure is the IndexError of app.py:259,
      which escapes the function; it is the only failure. Whatever the path,
      every entry returned has a non-empty reply and the class of its mode
      (app.py:228-312). */
  function GetAiResponse(mainMode: string, subMode: string, input: string, useMock: bool, extra: string,
                         image: Option<Image>, textModel: string, clientAvailable: bool,
                         encode: seq<Byte> -> string, complete: Request -> Option<string>): (r: Result<seq<Entry>, Error>)
    ensures r.Failure? <==> !useMock && clientAvailable && image.Some? && !Contains(image.value.mimeType, "/")
    ensures r.Success? ==> forall e | e in r.value :: e.reply != [] && e.css == CssClass(mainMode)
  {
    if useMock then Success(MockEntries(mainMode, extra, image.Some?))
    else if !clientAvailable then Success([])
    else
      match BuildRequest(mainMode, subMode, input, extra, image, textModel, encode)
      case Failure(e) => Failure(e)
      case Success(request) =>
        match complete(request)
        case None => Success([])
        case Some(raw) => Success(Parse(raw, mainMode))
  }

  /** Outside the demonstration mode, a completion is handed to the parser with
      the mode, and its entries are returned as they are (app.py:297-298). */
  lemma ResponseIsParsedCompletion(mainMode: string, subMode: string, input: string, extra: string,
                                   image: Option<Image>, textModel: string,
                                   encode: seq<Byte> -> string, complete: Request -> Option<string>)
    requires BuildRequest(mainMode, subMode, input, extra, image, textModel, encode).Success?
    requires complete(BuildRequest(mainMode, subMode, input, extra, image, textModel, encode).value).Some?
    ensures var raw := complete(BuildRequest(mainMode, subMode, input, extra, image, textModel, encode).value).value;
      GetAiResponse(mainMode, subMode, input, false, extra, image, textModel, true, encode, complete)
        == Success(Parse(raw, mainMode))
      && (GetAiResponse(mainMode, subMode, input, false, extra, image, textModel, true, encode, complete) == Success([])
          <==> AllSpace(raw))
  {
    var raw := complete(BuildRequest(mainMode, subMode, input, extra, image, textModel, encode).value).value;
    ParseBlank(raw, mainMode);
  }
}
