/**
 * The HTTP answering script: per-question retry with exponential backoff
 * (`get_answers_batch`), the reading of a reply body, and `main`'s
 * batch / concatenate / pad pipeline.
 *
 * The remote endpoint is an oracle supplied by the caller: `server(i)(k)`
 * is the outcome of attempt `k` for question `i` of the whole question
 * list; a batch is told the position `first` of its first question so that
 * it consults the right outcomes. Sleeps are recorded as a trace of
 * seconds and requests as a trace of prompts.
 */
module Gemini {
  import opened Common
  import opened Strings
  import opened Prompt
  import opened Batches

  // ---- The reply body, as far as the script looks into it ----

  /** One entry of `parts`; `text` is `None` when the key is absent. */
  datatype Part = Part(text: Option<string>)

  /** A candidate's `content`; `parts` is `None` when the key is absent. */
  datatype Content = Content(parts: Option<seq<Part>>)

  /** One entry of `candidates`; `content` is `None` when the key is absent. */
  datatype Candidate = Candidate(content: Option<Content>)

  /** The decoded JSON body; `candidates` is `None` when the key is absent. */
  datatype Reply = Reply(candidates: Option<seq<Candidate>>)

  /**
   * The outcome of one attempt: a `requests` exception raised by the post,
   * by `raise_for_status` or while decoding the body (`Transient`), or a
   * decoded body (`Parsed`).
   */
  datatype Attempt = Transient | Parsed(reply: Reply)

  /** The outcomes of successive attempts for one question. */
  type Stream = nat -> Attempt

  /** Which of the four branches of the reply check a body takes. */
  datatype Verdict = Answered(text: string) | EmptyText | BadShape | NoCandidates

  /** `candidates` is present and holds at least one entry. */
  predicate HasCandidates(reply: Reply)
  {
    reply.candidates.Some? && |reply.candidates.value| > 0
  }

  /** `candidates[0].content.parts[0].get('text', "").strip()`, when every level is present. */
  function FirstText(reply: Reply): (r: Option<string>)
  {
    if HasCandidates(reply) then
      var content := reply.candidates.value[0].content;
      if content.Some? && content.value.parts.Some? && |content.value.parts.value| > 0 then
        var text := content.value.parts.value[0].text;
        Some(Strip(if text.Some? then text.value else ""))
      else None
    else None
  }

  /**
   * The reply check: no candidates, a first candidate without `content` or
   * with no `parts`, an empty text after stripping, or an answer.
   */
  function Interpret(reply: Reply): (v: Verdict)
  {
    if !HasCandidates(reply) then NoCandidates
    else match FirstText(reply)
      case None => BadShape
      case Some(answer) => if answer != [] then Answered(answer) else EmptyText
  }

  /**
   * The verdict is an answer exactly when the first part's text is
   * present and not blank after stripping, and that stripped text is the
   * answer, with no whitespace at either end; "no candidates" is reported
   * exactly when `candidates` is absent or empty, and "bad shape" exactly
   * when there are candidates but some level below them is missing.
   */
  lemma InterpretSpec(reply: Reply)
    ensures var v := Interpret(reply);
      && (v.Answered? <==> FirstText(reply).Some? && FirstText(reply).value != [])
      && (v.Answered? ==> v.text == FirstText(reply).value)
      && (v.Answered? ==> !IsSpace(v.text[0]) && !IsSpace(v.text[|v.text| - 1]))
      && (v == NoCandidates <==> reply.candidates.None? || reply.candidates.value == [])
      && (v == BadShape <==> HasCandidates(reply) && FirstText(reply).None?)
  {
    var content := if HasCandidates(reply) then reply.candidates.value[0].content else None;
    if content.Some? && content.value.parts.Some? && |content.value.parts.value| > 0 {
      var text := content.value.parts.value[0].text;
      StripSpec(if text.Some? then text.value else "");
    }
  }

  /** The string appended for a parsed reply: the answer, or `""` in the three warning branches. */
  function AnswerOf(v: Verdict): string
  {
    if v.Answered? then v.text else ""
  }

  // ---- One question: the attempt loop as a function ----

  /**
   * What the attempt loop does for one question from attempt `attempt` on:
   * the answer appended (`None` when `range(retries)` is empty), the number
   * of requests made and the backoff waits taken.
   */
  datatype QuestionRun = QuestionRun(answer: Option<string>, attempts: nat, waits: seq<nat>)

  function RetryFrom(stream: Stream, attempt: nat, retries: nat, backoffFactor: nat): (r: QuestionRun)
    requires attempt <= retries
    ensures r.answer.Some? <==> attempt < retries
    ensures r.attempts <= retries - attempt
    ensures attempt < retries ==> 1 <= r.attempts && |r.waits| == r.attempts - 1
    decreases retries - attempt
  {
    if attempt == retries then QuestionRun(None, 0, [])
    else match stream(attempt)
      case Parsed(reply) => QuestionRun(Some(AnswerOf(Interpret(reply))), 1, [])
      case Transient =>
        if attempt < retries - 1 then
          var rest := RetryFrom(stream, attempt + 1, retries, backoffFactor);
          QuestionRun(rest.answer, rest.attempts + 1, [Pow(backoffFactor, attempt)] + rest.waits)
        else QuestionRun(Some(""), 1, [])
  }

  /** The loop for one question, from its first attempt. */
  function QuestionRunOf(stream: Stream, retries: nat, backoffFactor: nat): QuestionRun
  {
    RetryFrom(stream, 0, retries, backoffFactor)
  }

  /** The answer recorded for one question when there is at least one attempt. */
  function QuestionAnswer(stream: Stream, retries: nat, backoffFactor: nat): string
    requires retries >= 1
  {
    QuestionRunOf(stream, retries, backoffFactor).answer.value
  }

  /** The answers of questions `first .. first + n - 1`, in order. */
  function ExpectedAnswers(server: nat -> Stream, retries: nat, backoffFactor: nat, first: nat, n: nat): (r: seq<string>)
    requires retries >= 1
    ensures |r| == n
    decreases n
  {
    if n == 0 then []
    else ExpectedAnswers(server, retries, backoffFactor, first, n - 1) + [QuestionAnswer(server(first + n - 1), retries, backoffFactor)]
  }

  /** Entry `i` of the expected answers is question `first + i`'s answer. */
  lemma {:induction false} ExpectedAt(server: nat -> Stream, retries: nat, backoffFactor: nat, first: nat, n: nat, i: nat)
    requires retries >= 1
    requires i < n
    ensures ExpectedAnswers(server, retries, backoffFactor, first, n)[i] == QuestionAnswer(server(first + i), retries, backoffFactor)
    decreases n
  {
    if i < n - 1 {
      ExpectedAt(server, retries, backoffFactor, first, n - 1, i);
    }
  }

  /** The answers of two adjacent runs of questions are the answers of the whole run. */
  lemma {:induction false} ExpectedSplit(server: nat -> Stream, retries: nat, backoffFactor: nat, first: nat, n: nat, m: nat)
    requires retries >= 1
    ensures ExpectedAnswers(server, retries, backoffFactor, first, n) + ExpectedAnswers(server, retries, backoffFactor, first + n, m)
         == ExpectedAnswers(server, retries, backoffFactor, first, n + m)
    decreases m
  {
    if m > 0 {
      ExpectedSplit(server, retries, backoffFactor, first, n, m - 1);
      assert first + n + m - 1 == first + (n + m) - 1;
    }
  }

  /** The waits `backoff_factor ** k` for `k` in `from .. from + n - 1`. */
  function Backoffs(backoffFactor: nat, from: nat, n: nat): (r: seq<nat>)
    ensures |r| == n
    ensures forall k :: 0 <= k < n ==> r[k] == Pow(backoffFactor, from + k)
    decreases n
  {
    if n == 0 then [] else [Pow(backoffFactor, from)] + Backoffs(backoffFactor, from + 1, n - 1)
  }

  /**
   * A question whose every attempt fails transiently: exactly `retries`
   * requests, the answer `""` (nothing when `retries == 0`), and the waits
   * `backoff_factor ** k` for `k = 0 .. retries - 2`, with none after the last attempt.
   */
  lemma AllTransient(stream: Stream, retries: nat, backoffFactor: nat)
    requires forall k :: 0 <= k < retries ==> stream(k).Transient?
    ensures var r := QuestionRunOf(stream, retries, backoffFactor);
      && r.attempts == retries
      && r.answer == (if retries == 0 then None else Some(""))
      && r.waits == (if retries == 0 then [] else Backoffs(backoffFactor, 0, retries - 1))
  {
    if retries > 0 {
      AllTransientFrom(stream, 0, retries, backoffFactor);
    }
  }

  lemma {:induction false} AllTransientFrom(stream: Stream, attempt: nat, retries: nat, backoffFactor: nat)
    requires attempt < retries
    requires forall k :: attempt <= k < retries ==> stream(k).Transient?
    ensures var r := RetryFrom(stream, attempt, retries, backoffFactor);
      && r.attempts == retries - attempt
      && r.answer == Some("")
      && r.waits == Backoffs(backoffFactor, attempt, retries - 1 - attempt)
    decreases retries - attempt
  {
    assert stream(attempt).Transient?;
    if attempt < retries - 1 {
      AllTransientFrom(stream, attempt + 1, retries, backoffFactor);
      var rest := RetryFrom(stream, attempt + 1, retries, backoffFactor);
      var w := Backoffs(backoffFactor, attempt, retries - 1 - attempt);
      assert w == [Pow(backoffFactor, attempt)] + rest.waits;
    }
  }

  /**
   * Transient failures at attempts `0 .. j - 1` and a decoded body at attempt
   * `j < retries`: the answer is decided by attempt `j` alone, no attempt
   * follows it, and the waits are `backoff_factor ** k` for `k < j`.
   */
  lemma FirstParsed(stream: Stream, j: nat, retries: nat, backoffFactor: nat)
    requires j < retries
    requires forall k :: 0 <= k < j ==> stream(k).Transient?
    requires stream(j).Parsed?
    ensures var r := QuestionRunOf(stream, retries, backoffFactor);
      && r.attempts == j + 1
      && r.answer == Some(AnswerOf(Interpret(stream(j).reply)))
      && r.waits == Backoffs(backoffFactor, 0, j)
  {
    FirstParsedFrom(stream, 0, j, retries, backoffFactor);
  }

  lemma {:induction false} FirstParsedFrom(stream: Stream, attempt: nat, j: nat, retries: nat, backoffFactor: nat)
    requires attempt <= j < retries
    requires forall k :: attempt <= k < j ==> stream(k).Transient?
    requires stream(j).Parsed?
    ensures var r := RetryFrom(stream, attempt, retries, backoffFactor);
      && r.attempts == j + 1 - attempt
      && r.answer == Some(AnswerOf(Interpret(stream(j).reply)))
      && r.waits == Backoffs(backoffFactor, attempt, j - attempt)
    decreases j - attempt
  {
    if attempt < j {
      assert stream(attempt).Transient?;
      FirstParsedFrom(stream, attempt + 1, j, retries, backoffFactor);
      var rest := RetryFrom(stream, attempt + 1, retries, backoffFactor);
      var w := Backoffs(backoffFactor, attempt, j - attempt);
      assert w == [Pow(backoffFactor, attempt)] + rest.waits;
    }
  }

  // ---- A batch: the question loop as a function ----

  /** What `get_answers_batch` produces: its answers, the sleeps taken and the prompts sent. */
  datatype BatchRun = BatchRun(answers: seq<string>, sleeps: seq<nat>, sent: seq<string>)

  /**
   * The list after the questions `questions` (question `i` answered from
   * `server(first + i)`): each question adds its answer, its backoff waits followed
   * by the one-second courtesy delay, and one copy of its prompt per attempt.
   */
  function BatchSpec(template: string, questions: seq<string>, retries: nat, backoffFactor: nat, server: nat -> Stream, first: nat): BatchRun
    decreases |questions|
  {
    if questions == [] then BatchRun([], [], [])
    else
      var n := |questions| - 1;
      var before := BatchSpec(template, questions[..n], retries, backoffFactor, server, first);
      var run := QuestionRunOf(server(first + n), retries, backoffFactor);
      BatchRun(before.answers + ToSeq(run.answer),
               before.sleeps + (run.waits + [1]),
               before.sent + Repeat(BuildPrompt(template, questions[n]), run.attempts))
  }

  /**
   * One answer per question, in question order, when `retries >= 1`;
   * no answer at all when `retries == 0`.
   */
  lemma {:induction false} BatchAnswers(template: string, questions: seq<string>, retries: nat, backoffFactor: nat, server: nat -> Stream, first: nat)
    ensures var answers := BatchSpec(template, questions, retries, backoffFactor, server, first).answers;
      && (retries == 0 ==> answers == [])
      && (retries >= 1 ==> answers == ExpectedAnswers(server, retries, backoffFactor, first, |questions|))
    decreases |questions|
  {
    if questions != [] {
      BatchAnswers(template, questions[..|questions| - 1], retries, backoffFactor, server, first);
    }
  }

  /**
   * The sleep trace is, question by question, that question's backoff waits
   * followed by exactly one one-second courtesy delay, whatever the outcome.
   */
  lemma {:induction false} BatchCourtesyDelay(template: string, questions: seq<string>, retries: nat, backoffFactor: nat, server: nat -> Stream, first: nat)
    ensures BatchSpec(template, questions, retries, backoffFactor, server, first).sleeps
         == Flatten(seq(|questions|, (i: nat) => QuestionRunOf(server(first + i), retries, backoffFactor).waits + [1]))
    decreases |questions|
  {
    if questions != [] {
      var n := |questions| - 1;
      BatchCourtesyDelay(template, questions[..n], retries, backoffFactor, server, first);
      var segs := seq(|questions|, (i: nat) => QuestionRunOf(server(first + i), retries, backoffFactor).waits + [1]);
      assert segs == segs[..n] + [segs[n]];
      assert segs[..n] == seq(n, (i: nat) => QuestionRunOf(server(first + i), retries, backoffFactor).waits + [1]);
      FlattenSnoc(segs[..n], segs[n]);
    }
  }

  /** One more question extends the batch run by that question's own run. */
  lemma BatchSpecStep(template: string, questions: seq<string>, idx: nat, retries: nat, backoffFactor: nat, server: nat -> Stream, first: nat)
    requires idx < |questions|
    ensures var before := BatchSpec(template, questions[..idx], retries, backoffFactor, server, first);
      var run := QuestionRunOf(server(first + idx), retries, backoffFactor);
      BatchSpec(template, questions[..idx + 1], retries, backoffFactor, server, first)
        == BatchRun(before.answers + ToSeq(run.answer),
                    before.sleeps + (run.waits + [1]),
                    before.sent + Repeat(BuildPrompt(template, questions[idx]), run.attempts))
  {
    assert questions[..idx + 1][..idx] == questions[..idx];
  }

  /**
   * The `for attempt in range(retries)` loop for one question: send the
   * prompt, stop at the first decoded body, wait `backoff_factor ** attempt`
   * after every failed attempt but the last, and record `""` when the
   * attempts run out. `appended` is what the loop appends to `answers`.
   */
  method AttemptQuestion(prompt: string, stream: Stream, retries: nat, backoffFactor: nat)
    returns (appended: seq<string>, waits: seq<nat>, sent: seq<string>)
    ensures var run := QuestionRunOf(stream, retries, backoffFactor);
      && appended == ToSeq(run.answer)
      && waits == run.waits
      && sent == Repeat(prompt, run.attempts)
  {
    ghost var whole := QuestionRunOf(stream, retries, backoffFactor);
    appended, waits, sent := [], [], [];
    var attempt := 0;
    while attempt < retries
      invariant attempt <= retries
      invariant var rest := RetryFrom(stream, attempt, retries, backoffFactor);
        && ToSeq(whole.answer) == appended + ToSeq(rest.answer)
        && whole.waits == waits + rest.waits
        && Repeat(prompt, whole.attempts) == sent + Repeat(prompt, rest.attempts)
    {
      ghost var rest := RetryFrom(stream, attempt, retries, backoffFactor);
      RepeatSnoc(prompt, rest.attempts - 1);
      sent := sent + [prompt];
      var outcome := stream(attempt);
      if outcome.Parsed? {
        appended := appended + [AnswerOf(Interpret(outcome.reply))];
        assert appended == ToSeq(whole.answer);
        assert sent == Repeat(prompt, whole.attempts);
        assert waits == whole.waits;
        break;
      }
      if attempt < retries - 1 {
        waits := waits + [Pow(backoffFactor, attempt)];
      } else {
        appended := appended + [""];
      }
      attempt := attempt + 1;
    }
  }

  /**
   * `get_answers_batch(batch_questions, retries, backoff_factor)`: for each
   * question in order, build its prompt, run its attempt loop, append what
   * that loop yields, and wait one second before the next question.
   */
  method GetAnswersBatch(template: string, batchQuestions: seq<string>, retries: nat, backoffFactor: nat, server: nat -> Stream, first: nat)
    returns (answers: seq<string>, sleeps: seq<nat>, sent: seq<string>)
    ensures BatchRun(answers, sleeps, sent) == BatchSpec(template, batchQuestions, retries, backoffFactor, server, first)
    ensures retries == 0 ==> answers == []
    ensures retries >= 1 ==> answers == ExpectedAnswers(server, retries, backoffFactor, first, |batchQuestions|)
  {
    answers, sleeps, sent := [], [], [];
    for idx := 0 to |batchQuestions|
      invariant BatchRun(answers, sleeps, sent) == BatchSpec(template, batchQuestions[..idx], retries, backoffFactor, server, first)
    {
      var question := batchQuestions[idx];
      var prompt := BuildPrompt(template, question);
      var appended, waits, requests := AttemptQuestion(prompt, server(first + idx), retries, backoffFactor);
      BatchSpecStep(template, batchQuestions, idx, retries, backoffFactor, server, first);
      answers := answers + appended;
      sleeps := sleeps + (waits + [1]);
      sent := sent + requests;
    }
    assert batchQuestions[..|batchQuestions|] == batchQuestions;
    BatchAnswers(template, batchQuestions, retries, backoffFactor, server, first);
  }

  // ---- main ----

  const BatchSize: nat := 5
  const DefaultRetries: nat := 3
  const DefaultBackoffFactor: nat := 2

  /**
   * One round of the batch loop: the answers so far, for the questions before
   * batch `b`, followed by batch `b`'s answers are the answers of every
   * question up to the end of batch `b`.
   */
  lemma CollectStep(batches: seq<seq<string>>, b: nat, offset: nat, server: nat -> Stream,
                    retries: nat, backoffFactor: nat, answers: seq<string>, more: seq<string>)
    requires retries >= 1 && b < |batches|
    requires offset == |Flatten(batches[..b])|
    requires answers == ExpectedAnswers(server, retries, backoffFactor, 0, offset)
    requires more == ExpectedAnswers(server, retries, backoffFactor, offset, |batches[b]|)
    ensures offset + |batches[b]| == |Flatten(batches[..b + 1])|
    ensures answers + more == ExpectedAnswers(server, retries, backoffFactor, 0, offset + |batches[b]|)
  {
    ExpectedSplit(server, retries, backoffFactor, 0, offset, |batches[b]|);
    FlattenPrefixStep(batches, b);
  }

  /**
   * The batch loop of `main`: `answers.extend(get_answers_batch(batch))` for
   * each batch of `split_into_batches(questions, BATCH_SIZE)` in order, with
   * the default three attempts and backoff factor two. Question `i` of the
   * whole list is answered from `server(i)`.
   */
  method CollectAnswers(template: string, questions: seq<string>, server: nat -> Stream) returns (answers: seq<string>)
    ensures answers == ExpectedAnswers(server, DefaultRetries, DefaultBackoffFactor, 0, |questions|)
  {
    var batches := SplitIntoBatches(questions, BatchSize);
    SplitFlattens(questions, BatchSize);
    answers := [];
    var offset := 0;
    for b := 0 to |batches|
      invariant offset == |Flatten(batches[..b])|
      invariant answers == ExpectedAnswers(server, DefaultRetries, DefaultBackoffFactor, 0, offset)
    {
      var batch := batches[b];
      var batchAnswers, _, _ := GetAnswersBatch(template, batch, DefaultRetries, DefaultBackoffFactor, server, offset);
      CollectStep(batches, b, offset, server, DefaultRetries, DefaultBackoffFactor, answers, batchAnswers);
      answers := answers + batchAnswers;
      offset := offset + |batch|;
    }
    assert batches[..|batches|] == batches;
  }

  /**
   * `main` after the input column has been read: nothing is written for an
   * empty question list; otherwise the column written holds, for question
   * `i`, the answer its attempts produced, after the padding loop has
   * brought it to `len(questions)` entries without touching the ones
   * already there.
   */
  method RunPipeline(template: string, questions: seq<string>, server: nat -> Stream) returns (column: Option<seq<string>>)
    ensures column.None? <==> questions == []
    ensures column.Some? ==> |column.value| == |questions|
    ensures column.Some? ==> forall i :: 0 <= i < |questions| ==>
      column.value[i] == QuestionAnswer(server(i), DefaultRetries, DefaultBackoffFactor)
  {
    if questions == [] {
      return None;
    }
    var answers := CollectAnswers(template, questions, server);
    answers := PadAnswers(answers, |questions|);
    column := Some(answers);
    forall i | 0 <= i < |questions|
      ensures column.value[i] == QuestionAnswer(server(i), DefaultRetries, DefaultBackoffFactor)
    {
      ExpectedAt(server, DefaultRetries, DefaultBackoffFactor, 0, |questions|, i);
    }
  }
}
