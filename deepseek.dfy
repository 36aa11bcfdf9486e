/**
 * The SDK answering script: the module-level loop over batches of five
 * questions, one model call per question with no retry, and the padding of
 * the answer list to the question count.
 *
 * The SDK is an oracle supplied by the caller: `sdk(i)` is the outcome of
 * the single call made for question `i` of the whole list. Sleeps are
 * recorded as a trace of seconds, requests as a trace of prompts and the
 * progress message as the pair (batch number, batch total) it shows.
 */
module Deepseek {
  import opened Common
  import opened Strings
  import opened Prompt
  import opened Batches

  /**
   * One `model.generate_content(prompt)` call: its `response.text`, or an
   * exception raised by the call or by reading `text`.
   */
  datatype SdkReply = SdkText(text: string) | SdkError

  /** What is appended for one question: `response.text.strip()`, or `""` after any exception. */
  function SdkAnswer(reply: SdkReply): string
  {
    match reply
    case SdkText(text) => Strip(text)
    case SdkError => ""
  }

  const BatchSize: nat := 5

  /** The answers of questions `first .. first + n - 1`, in order. */
  function SdkAnswers(sdk: nat -> SdkReply, first: nat, n: nat): (r: seq<string>)
    ensures |r| == n
    decreases n
  {
    if n == 0 then [] else SdkAnswers(sdk, first, n - 1) + [SdkAnswer(sdk(first + n - 1))]
  }

  /** Entry `i` of the answers is the answer of question `first + i`'s own call. */
  lemma {:induction false} SdkAnswersAt(sdk: nat -> SdkReply, first: nat, n: nat, i: nat)
    requires i < n
    ensures SdkAnswers(sdk, first, n)[i] == SdkAnswer(sdk(first + i))
    decreases n
  {
    if i < n - 1 {
      SdkAnswersAt(sdk, first, n - 1, i);
    }
  }

  /** The answers of two adjacent runs of questions are the answers of the whole run. */
  lemma {:induction false} SdkAnswersSplit(sdk: nat -> SdkReply, first: nat, n: nat, m: nat)
    ensures SdkAnswers(sdk, first, n) + SdkAnswers(sdk, first + n, m) == SdkAnswers(sdk, first, n + m)
    decreases m
  {
    if m > 0 {
      SdkAnswersSplit(sdk, first, n, m - 1);
      assert first + n + m - 1 == first + (n + m) - 1;
    }
  }

  /** The prompts for `questions`, one per question, in order. */
  function Prompts(template: string, questions: seq<string>): (r: seq<string>)
    ensures |r| == |questions|
    decreases |questions|
  {
    if questions == [] then []
    else Prompts(template, questions[..|questions| - 1]) + [BuildPrompt(template, questions[|questions| - 1])]
  }

  /** Entry `i` of the prompts is the prompt built from question `i`. */
  lemma {:induction false} PromptsAt(template: string, questions: seq<string>, i: nat)
    requires i < |questions|
    ensures Prompts(template, questions)[i] == BuildPrompt(template, questions[i])
    decreases |questions|
  {
    var n := |questions| - 1;
    if i < n {
      PromptsAt(template, questions[..n], i);
      assert questions[..n][i] == questions[i];
    }
  }

  /** One more question adds its prompt at the end. */
  lemma PromptsStep(template: string, questions: seq<string>, j: nat)
    requires j < |questions|
    ensures Prompts(template, questions[..j + 1]) == Prompts(template, questions[..j]) + [BuildPrompt(template, questions[j])]
  {
    assert questions[..j + 1][..j] == questions[..j];
  }

  /** The prompts of two lists in turn are the prompts of their concatenation. */
  lemma {:induction false} PromptsAppend(template: string, a: seq<string>, b: seq<string>)
    ensures Prompts(template, a) + Prompts(template, b) == Prompts(template, a + b)
    decreases |b|
  {
    if b == [] {
      assert a + b == a;
    } else {
      var m := |b| - 1;
      PromptsAppend(template, a, b[..m]);
      assert (a + b)[..|a + b| - 1] == a + b[..m];
      assert (a + b)[|a + b| - 1] == b[m];
    }
  }

  /** The progress messages after `k` batches out of `total`: batch numbers `1 .. k`. */
  function ProgressLines(k: nat, total: nat): (r: seq<(nat, nat)>)
    ensures |r| == k
    decreases k
  {
    if k == 0 then [] else ProgressLines(k - 1, total) + [(k, total)]
  }

  /** Message `j` shows batch number `j + 1` of `total`. */
  lemma {:induction false} ProgressAt(k: nat, total: nat, j: nat)
    requires j < k
    ensures ProgressLines(k, total)[j] == (j + 1, total)
    decreases k
  {
    if j < k - 1 {
      ProgressAt(k - 1, total, j);
    }
  }

  /**
   * Traces of questions `0 .. i - 1` followed by those of `i .. end - 1` are
   * the traces of `0 .. end - 1`: answers, delays and prompts.
   */
  lemma BatchExtends(template: string, questions: seq<string>, sdk: nat -> SdkReply, i: nat, end: nat,
                     answers: seq<string>, sleeps: seq<nat>, sent: seq<string>,
                     more: seq<string>, moreSleeps: seq<nat>, moreSent: seq<string>)
    requires i <= end <= |questions|
    requires answers == SdkAnswers(sdk, 0, i) && more == SdkAnswers(sdk, i, end - i)
    requires sleeps == Repeat(1, i) && moreSleeps == Repeat(1, end - i)
    requires sent == Prompts(template, questions[..i]) && moreSent == Prompts(template, questions[i..end])
    ensures answers + more == SdkAnswers(sdk, 0, end)
    ensures sleeps + moreSleeps == Repeat(1, end)
    ensures sent + moreSent == Prompts(template, questions[..end])
  {
    SdkAnswersSplit(sdk, 0, i, end - i);
    RepeatAppend(1, i, end - i);
    PromptsAppend(template, questions[..i], questions[i..end]);
    SliceConcat(questions, i, end);
  }

  /**
   * The inner `for question in batch` loop: build the prompt, make one call,
   * append the stripped text or `""`, and sleep one second, for each
   * question whatever the outcome. `first` is the position of the batch's
   * first question in the whole list.
   */
  method AnswerBatch(template: string, batch: seq<string>, sdk: nat -> SdkReply, first: nat)
    returns (batchAnswers: seq<string>, sleeps: seq<nat>, sent: seq<string>)
    ensures batchAnswers == SdkAnswers(sdk, first, |batch|)
    ensures sleeps == Repeat(1, |batch|)
    ensures sent == Prompts(template, batch)
  {
    batchAnswers, sleeps, sent := [], [], [];
    for j := 0 to |batch|
      invariant batchAnswers == SdkAnswers(sdk, first, j)
      invariant sleeps == Repeat(1, j)
      invariant sent == Prompts(template, batch[..j])
    {
      var prompt := BuildPrompt(template, batch[j]);
      sent := sent + [prompt];
      var answer := SdkAnswer(sdk(first + j));
      batchAnswers := batchAnswers + [answer];
      sleeps := sleeps + [1];
      PromptsStep(template, batch, j);
    }
    assert batch[..|batch|] == batch;
  }

  /**
   * The outer `for i in range(0, len(questions), BATCH_SIZE)` loop: the
   * slices it takes are exactly `split_into_batches(questions, 5)`, the
   * answers are one per question in question order, each question gets one
   * prompt and one one-second delay, and the progress message after batch
   * `k` shows `k + 1` of `(len(questions) + 4) // 5`.
   */
  method RunBatches(template: string, questions: seq<string>, sdk: nat -> SdkReply)
    returns (answers: seq<string>, sleeps: seq<nat>, sent: seq<string>,
             slices: seq<seq<string>>, progress: seq<(nat, nat)>)
    ensures slices == SplitIntoBatches(questions, BatchSize)
    ensures answers == SdkAnswers(sdk, 0, |questions|)
    ensures sleeps == Repeat(1, |questions|)
    ensures sent == Prompts(template, questions)
    ensures progress == ProgressLines(|slices|, (|questions| + BatchSize - 1) / BatchSize)
    ensures |progress| == (|questions| + BatchSize - 1) / BatchSize
  {
    // The body spells BATCH_SIZE as the literal 5 (== BatchSize) to keep its arithmetic linear.
    answers, sleeps, sent, slices, progress := [], [], [], [], [];
    var n := |questions|;
    var total: nat := (n + 5 - 1) / 5;
    ghost var batches := SplitIntoBatches(questions, 5);
    BatchCount(questions, 5);
    BatchCountFormula(questions, 5);
    var i := 0;
    ghost var k := 0;
    ghost var done := 0;
    while i < n
      invariant k <= |batches| && i == k * 5
      invariant done == Min(i, n)
      invariant slices == batches[..k]
      invariant answers == SdkAnswers(sdk, 0, done)
      invariant sleeps == Repeat(1, done)
      invariant sent == Prompts(template, questions[..done])
      invariant progress == ProgressLines(k, total)
    {
      assert done == i;
      var end := Min(i + 5, n);
      var batch := questions[i..end];
      assert |batch| == end - i;
      BatchPrefixStep(questions, 5, k, i, end);
      var batchAnswers, batchSleeps, batchSent := AnswerBatch(template, batch, sdk, i);
      BatchExtends(template, questions, sdk, i, end, answers, sleeps, sent, batchAnswers, batchSleeps, batchSent);
      answers := answers + batchAnswers;
      sleeps := sleeps + batchSleeps;
      sent := sent + batchSent;
      slices := slices + [batch];
      DivUnique(i, 5, k);
      var number: nat := i / 5 + 1;
      progress := progress + [(number, total)];
      i := i + 5;
      k := k + 1;
      done := end;
    }
    assert batches[..k] == batches;
    assert questions[..n] == questions;
  }

  /**
   * The script after the question list has been read: the batch loop, then
   * `if len(answers) != len(questions): while len(answers) < len(questions):
   * answers.append("")`. The column written holds, for every question, the
   * answer of its own call, and nothing else.
   */
  method RunDeepseek(template: string, questions: seq<string>, sdk: nat -> SdkReply) returns (column: seq<string>)
    ensures |column| == |questions|
    ensures forall i :: 0 <= i < |questions| ==> column[i] == SdkAnswer(sdk(i))
  {
    var answers, _, _, _, _ := RunBatches(template, questions, sdk);
    column := PadAnswers(answers, |questions|);
    forall i | 0 <= i < |questions|
      ensures column[i] == SdkAnswer(sdk(i))
    {
      SdkAnswersAt(sdk, 0, |questions|, i);
    }
  }
}
