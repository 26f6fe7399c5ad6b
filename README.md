# 聊天助手 — a Dafny model of its text core

`app.py` is a Streamlit page that asks a chat model for three reply
suggestions in one of four modes (Dating, Sales, Normal, Reply_Post). It then
cuts the model's answer into suggestions and shows them as tagged cards. This
project models the text logic behind that page and proves properties of it:

- `parse_ai_response` (app.py:156-216) is `ResponseParser`. It is written
  twice: as the function `Parse` that states it, and as the method
  `ParseResponse` that runs the source's loop over the fragments, appending
  to `results`. `ReadFragment` is the loop body. The method is proved equal
  to the function.
- `get_system_prompt` (app.py:123-154) is `Prompts.SystemPrompt`.
- The pure parts of `get_ai_response` (app.py:219-312) are in `ChatRequest`:
  - the demonstration ("mock") answers;
  - the model choice;
  - the `data:image/<subtype>;base64,<payload>` URI, in the form of section 3
    of RFC 2397;
  - the two prompt texts and the single user message;
  - the whole call, with the chat completion as a parameter.
- `FormatDirective` holds the output format the prompts ask for ("选项<n>风格：…
  / 回复：… / 点评：…"; the text prompt indents each line). It proves that the
  parser reads a suggestion written in that format back, in order, with its
  fields trimmed, when the suggestion meets these conditions (`WellFormed`):
  - the option number is decimal digits;
  - the style is one line with neither "：" nor "选项";
  - neither the reply nor the critique contains "选项", "回复：" or "点评：";
  - the reply is not blank.

  Other text in the format is not read back as written: app.py:161 cuts a
  reply such as "两个选项都行" at its "选项".
- `PyStrings` gives the Python `str` operations the parser uses, on
  `seq<char>`. These are `in`, `split`, `join`, `count`, `replace` and
  `strip` (over the 29 characters of `str.isspace`). The module also holds
  their laws.
- `Wrappers` holds `Option` and `Result`.

The `try/except` blocks at app.py:181-197 and app.py:199-208 can never
catch anything. `"回复：" in part` guarantees that `split("回复：")[1]`
exists, and the same holds for the other markers. So the parser is total:
`After` requires its marker to occur, and every call meets that requirement.

Python reads `app.py`, which has CRLF line endings, with universal newlines.
So the triple-quoted prompt holds `\n` line breaks, and so does
`TextPrompt`.

A marker-free, non-blank completion is not shown as the "原始回复" fallback
entry. It becomes an ordinary "通用回复" entry holding the trimmed text
(`ParseMarkerFree`), and this model follows the code there. The fallback
only appears when text is present but every fragment's reply is empty, e.g.
for "选项" or "回复：". Text before the first "选项" is a fragment like any
other: a non-blank preamble becomes an entry of its own (`ParseRendered`).

## Model

| member | source | states |
|---|---|---|
| ResponseParser.CssClass | app.py:163-172 | The class is "dating", "sales" or "reply_post" exactly for the modes Dating, Sales and Reply_Post, and "normal" exactly for every other mode. |
| ResponseParser.Parse | app.py:156-216 | `parse_ai_response`: every returned entry, fallback included, has a non-empty reply and the class of the mode. |
| ResponseParser.Normalize | app.py:160 | The three chained replaces leave no "选项一", "选项二" or "选项三": no inserted "\n选项<d>" can create one. |
| ResponseParser.Fragments | app.py:161 | The fragments always equal `normalized.split("选项")`: the `"选项" in text` guard changes nothing. |
| ResponseParser.FirstLineWith | app.py:183 | `[l for l in lines if word in l][0]`: None exactly when no line mentions the word, otherwise the first line that does. |
| ResponseParser.StyleOf | app.py:183-187 | The style label never holds a full-width colon, and a fragment without "风格" gets "N/A". Which text the label is, is stated by `StyleAfterLastColon` and `StyleOfColonFreeLine`. |
| ResponseParser.StyleAfterLastColon | app.py:183-185 | When the first line mentioning "风格" (wherever it stands in the fragment) has a "：", the label is what follows its last "：", trimmed. |
| ResponseParser.StyleOfColonFreeLine | app.py:183-185 | When the first line mentioning "风格" has no "：", the label is that whole line, trimmed. |
| ResponseParser.StyleOfTwoColons | app.py:183-185 | "1：风格：幽默" is labelled "幽默", the text after the last "：", not the text before the first. |
| ResponseParser.ExtractFields | app.py:175-208 | The fields read from one fragment: the reply never holds "回复：" (it follows the first one, or the fragment has none) and the style never holds "：". |
| ResponseParser.EntryOf | app.py:210-211 | A fragment contributes its fields as one entry when the reply is non-empty, and nothing otherwise. Its properties are stated by `CollectWellFormed` and `CollectAppend`. |
| ResponseParser.Collect | app.py:174-211 | The `results` list after the loop: the entries of the fragments, in order. Its properties are stated by `CollectWellFormed` and `CollectAppend`. |
| ResponseParser.Fallback | app.py:213-214 | The fallback entry has an empty reply exactly when the normalised text is blank, which is why it is only used for non-blank text. |
| ResponseParser.ReadFragment | app.py:174-208 | The loop body, written as the source's reassignments, computes the fields `ExtractFields` specifies. Without "回复：" the style stays "通用回复" and the reply is the trimmed fragment. |
| ResponseParser.ParseResponse | app.py:156-216 | The loop over the fragments, followed by the fallback, returns exactly `Parse(text, mode)`. The loop invariant says `results` holds the entries of the fragments seen so far. |
| ResponseParser.NormalizeCanonical | app.py:160 | Text without "选项一/二/三" is left unchanged by the ordinal rewrite. |
| ResponseParser.NormalizeIdempotent | app.py:160 | Normalising twice is normalising once. |
| ResponseParser.NormalizeBlank | app.py:160 | The rewrite turns neither blank text into non-blank text nor non-blank text into blank text. |
| ResponseParser.CollectAppend | app.py:174-211 | The entries of two runs of fragments are the entries of the first run followed by those of the second: entries keep fragment order. |
| ResponseParser.CollectWellFormed | app.py:210-211 | Each fragment adds at most one entry, and every collected entry has a non-empty reply and the given class. |
| ResponseParser.ParseBlank | app.py:210-214 | The result is empty exactly when the completion is blank. |
| ResponseParser.ParseCssIndependentOfText | app.py:163-172 | Any two entries parsed in the same mode carry the same class, whatever the two texts. |
| ResponseParser.ParseBound | app.py:161-211 | There are at most as many entries as the normalised text has "选项", plus one. |
| ResponseParser.ParseFallback | app.py:213-214 | When no fragment yields a reply and the text is not blank, the result is the single fallback entry, whose reply is the trimmed normalised text. Otherwise the result is the fragments' entries. |
| ResponseParser.ParseMarkerFree | app.py:161-211 | Non-blank text with neither "选项" nor "回复：" gives exactly one entry {通用回复, text.strip(), 暂无分析}. |
| ResponseParser.AfterFirst | app.py:191-205 | `part.split(m)[1]` is the text between the first and the second `m`. |
| ResponseParser.BeforeFirst | app.py:191-194 | `part.split(m)[0]` is the text before the first `m`. |
| ResponseParser.ReadReplyOnly | app.py:198-206 | A fragment with "回复：" but neither "点评：" nor "解析：" has, as its reply, the text between the first and the second "回复：", trimmed. Its analysis is "请自行分析". |
| ResponseParser.ReadWithCritique | app.py:180-192 | In any fragment "<x>回复：<r>点评：<a>" whose shown "回复：" and "点评：" are the first ones and whose r holds no "回复：", the reply is r, trimmed, and the analysis is what follows "点评：" up to the next one, trimmed. This holds whatever the layout, whether or not the fragment holds "解析：", and with later "回复：" lines in a. |
| ResponseParser.ReadWithAnalysis | app.py:180-195 | In "<x>回复：<r>解析：<a>" without "点评：", with the shown markers the first ones and no "回复：" in r, "解析：" stands in for "点评：". The reply is r, trimmed, and the analysis is what follows "解析：" up to the next one, trimmed. Later "回复：" lines in a change neither. |
| ResponseParser.AfterReplyMarker | app.py:191 | `part.split("回复：")[1]` of "<x>回复：<r><m><a>", with m "点评：" or "解析：" and no "回复：" in r, is r, then m, then what precedes the first "回复：" of a: no "回复：" can start inside r + m. |
| ResponseParser.ParseBareReplyMarker | app.py:198-214 | The completion "回复：" has an empty reply, so it yields only the fallback entry {原始回复, "回复：", 格式未能识别，显示原始回复。}. |
| ResponseParser.ParseBareOptionMarker | app.py:161-214 | The completion "选项" cuts into two empty fragments, so it yields only the fallback entry {原始回复, "选项", …}. |
| FormatDirective.ReadBlock | app.py:180-195 | A well-formed block "<n>风格：<style>\n回复：<reply>\n点评：<critique>" is read as its three fields, trimmed. The style is taken from the first line with "风格", after its last "：". |
| FormatDirective.StyleOfBlock | app.py:183-185 | The style of a block is its style field, trimmed. |
| FormatDirective.SplitRendered | app.py:161 | Cutting "<pre>选项<block1>选项<block2>…" at "选项" gives the preamble and then the blocks, in order. |
| FormatDirective.RenderLacksOrdinal | app.py:160 | Text in the requested format holds no "选项<c>" for a non-digit c, so the ordinal rewrite leaves it alone. |
| FormatDirective.ParseRendered | app.py:156-216 | Suggestions in the requested format, after a preamble without "选项", are parsed as the preamble's own entry (if any) followed by one entry per suggestion, in order, with fields trimmed. Each suggestion must be `WellFormed`: a decimal number, a one-line style without "：" or "选项", a reply and a critique without "选项", "回复：" or "点评：", and a non-blank reply. |
| FormatDirective.ParseStrictOutput | app.py:156-216 | Output made only of `WellFormed` suggestions in the requested format is parsed entry for entry. |
| FormatDirective.ParseOneOption | app.py:180-195 | "选项1风格：幽默\n回复：哈哈好的\n点评：轻松化解" is parsed as the one entry {幽默, 哈哈好的, 轻松化解}. |
| Prompts.SystemPrompt | app.py:123-154 | The instruction is never empty. |
| Prompts.GenericExactlyWhenUnrecognised | app.py:128-154 | The generic instruction is returned exactly for an unknown mode and for a Dating or Sales sub-mode outside the two each offers (the fall-through to line 154). |
| Prompts.DetailQuoted | app.py:143-152 | The Normal and Reply_Post instructions contain the extra detail in single quotes. |
| Prompts.DetailDetermined | app.py:143-152 | In Normal and Reply_Post, different extra details give different instructions. |
| Prompts.IgnoredInputs | app.py:126-154 | Outside Normal and Reply_Post the extra detail does not matter. Inside them the sub-mode does not matter. |
| Prompts.PersonaFirst | app.py:128-140 | A Dating or Sales instruction starts with that mode's persona and a space. |
| ChatRequest.MockEntries | app.py:228-239 | The demonstration mode answers each known mode with exactly one entry and any other mode with none. Every canned entry has a non-empty reply and the class the parser gives that mode. |
| ChatRequest.MockNamesDetail | app.py:235-238 | The Normal and Reply_Post canned replies contain the extra detail. |
| ChatRequest.MockNotesImage | app.py:237-238 | The Reply_Post canned reply has "(含图片内容)" right after the detail exactly when an image was uploaded. |
| ChatRequest.Subtype | app.py:259 | `mime.split('/')[1]` exists exactly when the MIME type contains '/'. |
| ChatRequest.ImageUrl | app.py:258-259 | Building the data URI fails exactly when the MIME type has no '/'. |
| ChatRequest.ImageUrlOfMimeType | app.py:259 | For "<type>/<subtype>" the URI is "data:image/<subtype>;base64,<encoded bytes>". |
| ChatRequest.SubtypeHasNoSlash | app.py:259 | The subtype placed in the URI never contains '/'. |
| ChatRequest.VisionPrompt | app.py:262 | The vision prompt contains the system instruction, the user's text in double quotes and the format lines. |
| ChatRequest.TextPrompt | app.py:273-285 | The text prompt contains the system instruction, the user's text in double quotes and the three format lines, each indented by twelve spaces. |
| ChatRequest.BuildRequest | app.py:250-295 | There is exactly one user message, with temperature 0.7 and 1500 tokens. An image replaces the chosen text model with the vision model and sends the vision prompt, then the data URI. Otherwise the chosen model gets the text prompt alone. Assembly fails exactly for an image whose MIME type has no '/'. The prompt sent contains the system instruction and the user's text in double quotes. |
| ChatRequest.VisionPromptShowsFormat | app.py:262 | The vision prompt contains one option written in exactly the format the parser reads. |
| ChatRequest.DirectiveExampleText | app.py:262 | The vision prompt's format lines are the rendering of one suggestion whose fields are the placeholders. |
| ChatRequest.DirectiveExampleParses | app.py:156-216 | A model that echoed the vision prompt's format lines back would get one entry holding the three placeholders. |
| ChatRequest.GetAiResponse | app.py:219-312 | `get_ai_response`: on every path, each returned entry has a non-empty reply and the class of its mode. The call fails only outside the demonstration mode, with a client, for an image whose MIME type has no '/'. |
| ChatRequest.ResponseIsParsedCompletion | app.py:289-298 | Outside the demonstration mode, a completion is returned as the parser's reading of it, with the mode. The result is empty exactly when the completion is blank. |
| PyStrings.IndexOf | app.py:161 | `find` returns an occurrence with no earlier one, and None exactly when the pattern does not occur. |
| PyStrings.Contains | app.py:161 | Python's `p in s`: `p` occurs at some index of `s`. |
| PyStrings.Split | app.py:161 | `s.split(sep)` has at least one part. `SplitJoin`, `SplitPartsFree`, `SplitPartsOccur` and `SplitLength` state the rest. |
| PyStrings.Join | app.py:160 | `sep.join(parts)`: the parts in order with `sep` between neighbours. `SplitJoin` shows it undoes `Split`. |
| PyStrings.Count | app.py:161 | The separators `split` cuts at, counted as `s.count(p)` counts them, do not overlap: there are at most len(s) / len(p) of them. |
| PyStrings.Replace | app.py:160 | Every counted occurrence is replaced: the length changes by `count * (len(rep) - len(pat))`. |
| PyStrings.SplitLastPart | app.py:185 | For a one-character separator, `(x + sep + s).split(sep)[-1]` is `s` when `s` holds no separator: the last part follows the last separator. |
| PyStrings.SplitKeepsPrefix | app.py:191 | When no occurrence of q starts inside w, the first part of `(w + a).split(q)` is w followed by the first part of `a.split(q)`. |
| PyStrings.SplitJoin | app.py:161 | Joining the parts of `s.split(sep)` with `sep` gives back `s`. |
| PyStrings.SplitPartsFree | app.py:161 | No part of a split contains the separator. |
| PyStrings.SplitPartsOccur | app.py:161 | Every part of a split occurs in the split text. |
| PyStrings.SplitLength | app.py:161 | A split has one more part than the text has (non-overlapping) separators. |
| PyStrings.ReplaceIsJoinOfSplit | app.py:160 | `s.replace(pat, rep) == rep.join(s.split(pat))`. |
| PyStrings.ReplaceLeavesOut | app.py:160 | Replacing `pat` by a string that cannot start or complete `q` leaves no `q`, when `q` is `pat` or was absent. |
| PyStrings.ReplaceBlank | app.py:160 | Replacing by a non-blank string yields blank text only when nothing was replaced. |
| PyStrings.Strip | app.py:176 | A stripped string is empty or starts and ends with a non-blank character. |
| PyStrings.StripSlice | app.py:176 | `strip()` returns a contiguous piece of its argument with only blanks around it. |
| PyStrings.StripBlank | app.py:176 | `s.strip()` is empty exactly when `s` is blank. |
| PyStrings.StripIdempotent | app.py:176 | Stripping twice is stripping once. |
| PyStrings.StripOccurs | app.py:176 | What `strip()` returns occurs in its argument. |

## Left out

- The Streamlit page (app.py:18-117, 316-483): tabs, radios, uploaders, the HTML cards and the CSS. This is presentation only.
- The API key: the environment variable, session state and `save_api_key` (app.py:71-98). This is UI state and file I/O.
- The OpenAI client, its construction and the chat-completion call (app.py:248, 289-297). The call is the parameter `complete` of `GetAiResponse`. It returns the completion text, or `None` where the call raises. It also returns `None` where the answer has no content and `parse_ai_response(None, …)` would raise inside the same `try`. The missing-library branch (app.py:244-246) is the parameter `clientAvailable`.
- The error and warning messages (app.py:245, 299-310): only their result, `[]`, is modelled.
- `time.sleep(1)` in the demonstration branch (app.py:229). It is only a delay.
- Base64 (app.py:258) is the parameter `encode` of `ImageUrl`. It is not specified against section 4 of RFC 4648, and the UTF-8 decode of its ASCII output is the identity.
- The temperature 0.7 is kept as 7 tenths (no floating point). The client's base URL (app.py:248) is not part of a request.
- The sidebar's model list `TEXT_MODELS` and the `text_model` default (app.py:58-62, 219): the chosen model is the parameter `textModel`.
- The triple-quoted text prompt (app.py:273-285) is written out in `TextPrompt`, indentation included. The properties proved about it cover only what it contains: the instruction, the quoted input and the three format lines, each indented. That an echo of these indented lines would parse back is not proved; it is proved for the vision prompt's unindented lines (`DirectiveExampleParses`).
- Python's `str.split`, `replace` and `count` are modelled for non-empty separators only, the only ones `app.py` uses.
