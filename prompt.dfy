/**
 * The fixed prompt template shared by the two answering scripts and the
 * rendering `template.replace('{content}', question)`.
 */
module Prompt {
  import opened Strings

  const Placeholder: string := "{content}"

  /** The template text before its single placeholder. */
  const TemplatePrefix: string := "\n判断下列信息是否正确：\n\""

  /** The template text after its single placeholder, line by line. */
  const SuffixLines: seq<string> := [
    "\"\n",
    "请你为我构造一个多轮问答数据，",
    "第一轮是用户提供的信息和你认为的标准答案；",
    "第二轮是用户提问为什么和你对信息的分析。格式为：\n",
    "1用户：[]。\n",
    "2回答：[]。\n",
    "3用户：\n",
    "4回答：\n",
    "请你的回答中去除格式前的数字，并且要空行\n"
  ]

  function Concat(ss: seq<string>): (r: string)
  {
    if ss == [] then [] else ss[0] + Concat(ss[1..])
  }

  const TemplateSuffix: string := Concat(SuffixLines)

  /** The template as the scripts spell it out: one literal with one placeholder. */
  const Template: string := TemplatePrefix + Placeholder + TemplateSuffix

  /** `template.replace('{content}', question)`: the prompt sent for one question. */
  function BuildPrompt(template: string, question: string): string
  {
    Replace(template, Placeholder, question)
  }

  predicate Braceless(s: string)
  {
    forall k :: 0 <= k < |s| ==> s[k] != '{'
  }

  lemma {:induction false} ConcatBraceless(ss: seq<string>)
    requires forall i :: 0 <= i < |ss| ==> Braceless(ss[i])
    ensures Braceless(Concat(ss))
  {
    if ss != [] {
      ConcatBraceless(ss[1..]);
      assert Concat(ss) == ss[0] + Concat(ss[1..]);
    }
  }

  /**
   * No line of the template's suffix holds a `{`. The case split fixes the
   * index in each branch, so that Dafny checks that one literal line
   * character by character.
   */
  lemma LineBraceless(i: nat)
    requires i < |SuffixLines|
    ensures Braceless(SuffixLines[i])
  {
    if i == 0 {
    } else if i == 1 {
    } else if i == 2 {
    } else if i == 3 {
    } else if i == 4 {
    } else if i == 5 {
    } else if i == 6 {
    } else if i == 7 {
    }
  }

  /** The text before the placeholder holds no `{`. */
  lemma PrefixBraceless()
    ensures Braceless(TemplatePrefix)
  {
  }

  /** Neither side of the template holds a `{`, so the placeholder occurs in it exactly once. */
  lemma TemplateBraceless()
    ensures Braceless(TemplatePrefix) && Braceless(TemplateSuffix)
  {
    PrefixBraceless();
    forall i | 0 <= i < |SuffixLines| ensures Braceless(SuffixLines[i]) {
      LineBraceless(i);
    }
    ConcatBraceless(SuffixLines);
  }

  /**
   * The prompt is the template text around the placeholder with the question
   * in between; a question that itself contains `{content}` is inserted as it is.
   */
  lemma PromptShape(question: string)
    ensures BuildPrompt(Template, question) == TemplatePrefix + question + TemplateSuffix
  {
    TemplateBraceless();
    assert Placeholder[0] == '{';
    ReplaceSingle(TemplatePrefix, Placeholder, TemplateSuffix, question);
  }
}
