/**
 * The system instruction of app.py (`get_system_prompt`, lines 123-154): a
 * fixed text per (mode, sub-mode) pair for the Dating and Sales modes, a text
 * built around the extra detail (the relationship, or the content type) for
 * the Normal and Reply_Post modes, and a generic instruction for everything
 * else, including a Dating or Sales sub-mode the page does not offer.
 */
module Prompts {
  import opened PyStrings

  const DatingBase := "你是顶级情感顾问，精通推拉和暧昧。回复必须简短、有趣、带有调侃。"
  const SalesBase := "你是资深销售专家，回复必须专业、冷静、以客户价值为导向。"
  const GenericPrompt := "你是高情商助手，生成3条回复和解析。"

  // Sub-modes offered by the page for the Dating and Sales modes.
  const Opener := "开场白生成"
  const Revival := "起死回生术"
  const Objection := "客户异议处理"
  const ProductCopy := "产品介绍文案"

  // The two halves of the Normal and Reply_Post instructions around the
  // quoted extra detail.
  const NormalBefore := "你是高情商的万能聊天助手，请以一个面向"
  const NormalAfter := "的身份，根据用户的输入生成回复。 请生成3条不同侧重点的回复：1. 情感共鸣式 2. 理性分析式 3. 轻松幽默式。请在回复前标明风格。"
  const PostBefore := "你是一位资深的社媒评论专家，正在针对一个"
  const PostAfter := "类型的内容进行高质量回复。如果提供了图片，请优先分析图片内容。 请生成3条高质量的评论或回帖：1. 观点补充与升华型 2. 质疑与引发讨论型 3. 深度总结与归纳型。请在回复前标明风格。"

  /** The extra detail between single quotes, as the f-strings at app.py:145
      and app.py:151 embed it. */
  function Quoted(extra: string): string {
    "'" + extra + "'"
  }

  /** `get_system_prompt(main_mode, sub_mode, extra_detail)` (app.py:123-154).
      A Dating or Sales call with another sub-mode falls out of the if/elif
      chain and reaches the generic return at line 154. */
  function SystemPrompt(mainMode: string, subMode: string, extra: string): (p: string)
    ensures p != []
  {
    if mainMode == "Dating" && subMode == Opener then
      DatingBase + " " + "请根据对方的简介，生成3条能立刻抓住对方兴趣的开场白。"
    else if mainMode == "Dating" && subMode == Revival then
      DatingBase + " " + "对方已冷落你很久，请生成3条低压力、高情绪价值的挽回话术。"
    else if mainMode == "Sales" && subMode == Objection then
      SalesBase + " " + "客户提出了异议，请生成3种不同策略的回复：1. 价值锚定 2. 情感共鸣 3. 限时优惠。"
    else if mainMode == "Sales" && subMode == ProductCopy then
      SalesBase + " " + "请根据信息，生成3段针对性极强的文案：1. 痛点切入型 2. 权威背书型 3. 使用场景描绘型。"
    else if mainMode == "Normal" then
      NormalBefore + Quoted(extra) + NormalAfter
    else if mainMode == "Reply_Post" then
      PostBefore + Quoted(extra) + PostAfter
    else
      GenericPrompt
  }

  /** The pairs for which the if/elif chain of app.py:128-152 returns a
      specific instruction. */
  predicate Recognised(mainMode: string, subMode: string) {
    (mainMode == "Dating" && subMode in {Opener, Revival})
    || (mainMode == "Sales" && subMode in {Objection, ProductCopy})
    || mainMode == "Normal" || mainMode == "Reply_Post"
  }

  /** The generic instruction is returned exactly for an unknown mode and for
      a Dating or Sales sub-mode outside the two each offers (app.py:154). */
  lemma GenericExactlyWhenUnrecognised(mainMode: string, subMode: string, extra: string)
    ensures SystemPrompt(mainMode, subMode, extra) == GenericPrompt <==> !Recognised(mainMode, subMode)
  {
    var p := SystemPrompt(mainMode, subMode, extra);
    if Recognised(mainMode, subMode) {
      // Every specific instruction is longer than the generic one.
      if mainMode == "Dating" {
        assert |p| > |DatingBase| > |GenericPrompt|;
      } else if mainMode == "Sales" {
        assert |p| > |SalesBase| > |GenericPrompt|;
      } else if mainMode == "Normal" {
        assert |p| > |NormalAfter| > |GenericPrompt|;
      } else {
        assert |p| > |PostAfter| > |GenericPrompt|;
      }
    }
  }

  /** The Normal and Reply_Post instructions quote the extra detail between
      single quotes (app.py:145, 151). */
  lemma DetailQuoted(mainMode: string, subMode: string, extra: string)
    requires mainMode in {"Normal", "Reply_Post"}
    ensures Contains(SystemPrompt(mainMode, subMode, extra), Quoted(extra))
  {
    var before := if mainMode == "Normal" then NormalBefore else PostBefore;
    var after := if mainMode == "Normal" then NormalAfter else PostAfter;
    assert SystemPrompt(mainMode, subMode, extra) == before + (Quoted(extra) + after);
    assert (Quoted(extra) + after)[..|Quoted(extra)|] == Quoted(extra);
    OccursShifted(before, Quoted(extra) + after, Quoted(extra), 0);
  }

  /** Two different extra details give two different Normal (or Reply_Post)
      instructions: the detail can be read back from the instruction. */
  lemma DetailDetermined(mainMode: string, subMode: string, extra1: string, extra2: string)
    requires mainMode in {"Normal", "Reply_Post"}
    requires SystemPrompt(mainMode, subMode, extra1) == SystemPrompt(mainMode, subMode, extra2)
    ensures extra1 == extra2
  {
    var p := SystemPrompt(mainMode, subMode, extra1);
    var before := if mainMode == "Normal" then NormalBefore else PostBefore;
    assert |extra1| == |extra2|;
    assert extra1 == p[|before| + 1..|before| + 1 + |extra1|] == extra2;
  }

  /** Outside Normal and Reply_Post the extra detail is ignored, and inside
      them the sub-mode is (app.py:126-154). */
  lemma IgnoredInputs(mainMode: string, subMode1: string, subMode2: string, extra1: string, extra2: string)
    ensures mainMode !in {"Normal", "Reply_Post"} ==>
      SystemPrompt(mainMode, subMode1, extra1) == SystemPrompt(mainMode, subMode1, extra2)
    ensures mainMode in {"Normal", "Reply_Post"} ==>
      SystemPrompt(mainMode, subMode1, extra1) == SystemPrompt(mainMode, subMode2, extra1)
  {
  }

  /** A Dating or Sales instruction starts with that mode's persona, followed
      by a space (app.py:128-140). */
  lemma PersonaFirst(mainMode: string, subMode: string, extra: string)
    requires Recognised(mainMode, subMode) && mainMode in {"Dating", "Sales"}
    ensures var base := if mainMode == "Dating" then DatingBase else SalesBase;
      SystemPrompt(mainMode, subMode, extra)[..|base| + 1] == base + " "
  {
    var base := if mainMode == "Dating" then DatingBase else SalesBase;
    var p := SystemPrompt(mainMode, subMode, extra);
    var rest := p[|base| + 1..];
    assert p == base + " " + rest;
  }
}
