# Verified model of the question-answering and transcript scripts

The repository is a set of small scripts that build a multi-turn
question/answer data set:

- `gemini.py` reads a column of questions and splits it into batches of five.
  For each question it fills in a fixed prompt template and posts it to a remote
  model. It retries failed requests with exponential backoff. It concatenates
  the batch answers, pads them to the question count and writes them back.
- `deepseek.py` runs the same pipeline through an SDK. It makes one call per
  question and never retries. It prints a batch progress counter.
- `output_convert.py` reads a transcript of `用户：` / `回答：` lines, keeps
  (user, answer) pairs, and writes them two pairs per row into four columns.

This Dafny project models the logic of those three scripts, without their I/O,
and proves what the code promises. There is one module per concern:

| module | file | models |
|---|---|---|
| `Common` | common.dfy | `Option`, `Repeat`, `Flatten`, and the padding loop shared by both answering scripts |
| `Strings` | strings.dfy | `str.strip` / `lstrip` / `rstrip`, `str.startswith` and `str.replace`, on `seq<char>` |
| `Prompt` | prompt.dfy | the prompt template and `template.replace('{content}', question)` |
| `Batches` | batches.dfy | `split_into_batches`, and the slices `questions[i:i + 5]` of the SDK loop |
| `Gemini` | gemini.dfy | the reply check, the retry loop, `get_answers_batch`, and the batch / concatenate / pad part of `main` |
| `Deepseek` | deepseek.dfy | the module-level batch loop, the single-call answer, the progress counter and the padding |
| `Transcript` | transcript.dfy | line classification, the pending-user / pending-answer state machine, and the grouping of pairs into rows |

How the model is set up:

- **Remote calls are oracles the caller supplies.**
  - `server(i)(k)` is the outcome of attempt `k` for question `i` of the whole
    list. It is either `Transient`, meaning a `requests` exception, or `Parsed`
    with a decoded body.
  - A batch is told the position `first` of its first question.
  - `sdk(i)` is the outcome of the one SDK call for question `i`.
- **Sleeps and requests are traces.** Sleeps are a `seq<nat>` of seconds.
  Requests are the sequence of prompts sent. The SDK progress line is the pair
  (batch number, batch total).
- **Each loop is proved against a specification function.** Every `for` and
  `while` loop in the source is a Dafny `method` with the same loop, and its
  `ensures` ties the result to a function of the inputs:
  - `GetAnswersBatch` to `BatchSpec`;
  - `AttemptQuestion` to `RetryFrom`;
  - `ScanTranscript` to `Conversations`;
  - `GroupPairs` to `Group`;
  - `RunBatches` to `SdkAnswers` / `Prompts` / `ProgressLines`.
  The source's promises are then proved about those functions as lemmas.
  The one generator, `split_into_batches` (gemini.py:143-144), is the recursive
  function `Batches.SplitIntoBatches`. `BatchAt` and `BatchPrefixStep` prove
  that it yields exactly the slices the generator's loop takes.
- **The template is a parameter of the pipeline methods.** The scripts' own
  template is the constant `Prompt.Template`, and `Prompt.PromptShape` fixes the
  prompt it builds. The pipeline methods (`GetAnswersBatch`, `CollectAnswers`,
  `RunPipeline`, `AnswerBatch`, `RunBatches`, `RunDeepseek`) take the template
  text as a parameter.
- **`None` is the empty string.** A pending field that `output_convert.py`
  holds as `None` is `""` here. The script only tests those fields for
  truthiness, and `None` and `""` are both false.

## Model

| member | source | states |
|---|---|---|
| `Common.Padded` | gemini.py:190-195 | padding leaves a list of at least `n` entries unchanged; otherwise it reaches length exactly `n`, keeps every existing entry, and adds only `""` |
| `Common.PadAnswers` | deepseek.py:85-88 | the `if len != n: while len < n: append("")` loop yields exactly `Padded(answers, n)` |
| `Strings.Strip` | gemini.py:91 | `str.strip()` as `RStrip(LStrip(s))`; its properties are stated by `Strings.StripSpec`, `StripEmptyIff`, `StripIdempotent` and `StripTrimmed` |
| `Strings.Replace` | gemini.py:73 | `str.replace` for a non-empty pattern, as a left-to-right scan over non-overlapping occurrences; stated by `Strings.ReplaceSkips`, `ReplaceNone` and `ReplaceSingle` |
| `Strings.LStripSpec` | output_convert.py:27 | `lstrip` / `\s*` leaves the longest suffix that does not start with whitespace, and removes only whitespace |
| `Strings.RStripSpec` | deepseek.py:73 | `rstrip` leaves the longest prefix that does not end with whitespace, and removes only whitespace |
| `Strings.StripSpec` | gemini.py:91 | `strip()` returns a contiguous slice with only whitespace outside it and no whitespace at either of its ends |
| `Strings.StripEmptyIff` | gemini.py:91-92 | a text strips to `""` exactly when it is all whitespace |
| `Strings.StripIdempotent` | output_convert.py:46 | stripping an already stripped text changes nothing |
| `Strings.StripTrimmed` | output_convert.py:33 | a text with no whitespace at either end strips to itself |
| `Strings.ReplaceSkips` | gemini.py:73 | `replace` copies a prefix holding no copy of the pattern's first character unchanged |
| `Strings.ReplaceNone` | gemini.py:73 | `replace` leaves a text with no copy of the pattern's first character as it is |
| `Strings.ReplaceSingle` | gemini.py:73 | `prefix + pat + suffix` becomes `prefix + rep + suffix` when neither side can start the pattern, whatever `rep` contains |
| `Prompt.BuildPrompt` | gemini.py:73 | `template.replace('{content}', question)`; for the scripts' template this is stated by `Prompt.PromptShape` |
| `Prompt.TemplateBraceless` | gemini.py:16-25 | the template text holds no `{` outside its one `{content}` placeholder |
| `Prompt.PromptShape` | gemini.py:73 | the prompt is the template prefix, then the question exactly as given (never substituted again), then the template suffix |
| `Batches.SplitIntoBatches` | gemini.py:142-144 | every batch is non-empty and holds at most `batch_size` items, and all but the last hold exactly `batch_size` |
| `Batches.SplitFlattens` | gemini.py:142-144 | the batches concatenate back to the list: nothing is lost, repeated or reordered |
| `Batches.BatchCount` | gemini.py:143 | the batch count `m` satisfies `(m - 1) * size < n <= m * size`, so it is `ceil(n / size)` |
| `Batches.BatchCountFormula` | deepseek.py:82 | the batch count equals Python's `(n + size - 1) // size` |
| `Batches.DivUnique` | deepseek.py:82 | floor division `a // d` is the unique `q` with `q * d <= a < q * d + d` |
| `Batches.BatchAt` | gemini.py:143-144 | batch `k` is the slice `lst[k*size : min(k*size + size, n)]`, and it starts inside the list |
| `Batches.BatchPrefixStep` | deepseek.py:65-66 | the slice the loop takes at `i = k * size` is batch `k`, so after `k + 1` rounds the slices are the first `k + 1` batches |
| `Gemini.Interpret` | gemini.py:88-111 | the four branches of the reply check; stated by `Gemini.InterpretSpec` |
| `Gemini.InterpretSpec` | gemini.py:88-111 | a body gives an answer exactly when `candidates[0].content.parts[0].text` is present (missing `text` counts as `""`) and is not blank after stripping; the answer is that stripped text; "no candidates" happens exactly when `candidates` is absent or empty; "bad shape" happens exactly when there are candidates but a level below them is missing |
| `Gemini.RetryFrom` | gemini.py:81-135 | from attempt `a`, an answer is recorded exactly when `a < retries`; at most `retries - a` requests are made, and one fewer wait than requests |
| `Gemini.AllTransient` | gemini.py:112-135 | when every attempt fails: exactly `retries` requests, answer `""` (nothing when `retries == 0`), waits `factor ** k` for `k = 0 .. retries - 2`, no wait after the last attempt |
| `Gemini.FirstParsed` | gemini.py:81-131 | failures at attempts `0 .. j - 1` and a decoded body at `j < retries`: exactly `j + 1` requests, the answer decided by attempt `j` alone, waits `factor ** k` for `k < j` |
| `Gemini.Backoffs` | gemini.py:127-131 | the waits list holds `factor ** (from + k)` at position `k` |
| `Gemini.ExpectedAnswers` | gemini.py:66-138 | exactly one expected answer per question |
| `Gemini.ExpectedAt` | gemini.py:66-138 | expected answer `i` is the answer of question `first + i`'s own attempts |
| `Gemini.ExpectedSplit` | gemini.py:186-187 | the answers of two adjacent question ranges, concatenated, are the answers of the joined range |
| `Gemini.BatchSpec` | gemini.py:67-138 | the answers, sleeps and prompts of a batch, question by question; stated by `Gemini.BatchAnswers`, `BatchCourtesyDelay` and, through `GetAnswersBatch`, the loop itself |
| `Gemini.BatchAnswers` | gemini.py:81 | with `retries >= 1` a batch has exactly one answer per question, in order; with `retries == 0` it has none |
| `Gemini.BatchCourtesyDelay` | gemini.py:137 | the sleep trace is, question by question, that question's backoff waits followed by exactly one 1-second delay, whatever the outcome |
| `Gemini.AttemptQuestion` | gemini.py:81-135 | the attempt loop with its `break`s appends exactly the run's answer, waits exactly the run's backoffs, and sends the prompt once per attempt |
| `Gemini.GetAnswersBatch` | gemini.py:66-138 | the batch's answers, sleeps and prompts are exactly `BatchSpec`; one answer per question in order when `retries >= 1`; none when `retries == 0` |
| `Gemini.CollectStep` | gemini.py:186-187 | extending by batch `b`'s answers extends the answered range by exactly that batch |
| `Gemini.CollectAnswers` | gemini.py:183-187 | concatenating the batch results gives, in order, the answer of every question of the list |
| `Gemini.RunPipeline` | gemini.py:171-195 | an empty list gives nothing to write; otherwise the column has `len(questions)` entries, entry `i` being question `i`'s answer |
| `Deepseek.SdkAnswer` | deepseek.py:71-78 | `response.text.strip()` for a call that returns, `""` for one that raises; stated per question by `Deepseek.SdkAnswersAt` |
| `Deepseek.SdkAnswers` | deepseek.py:65-81 | exactly one answer per question |
| `Deepseek.SdkAnswersAt` | deepseek.py:70-78 | answer `i` is `response.text.strip()` of question `first + i`'s single call, or `""` when that call raised |
| `Deepseek.SdkAnswersSplit` | deepseek.py:81 | the answers of adjacent ranges, concatenated, are the answers of the joined range |
| `Deepseek.Prompts` | deepseek.py:70 | one prompt per question |
| `Deepseek.PromptsAt` | deepseek.py:70 | prompt `i` is the template filled with question `i` |
| `Deepseek.PromptsAppend` | deepseek.py:68-70 | the prompts of two lists, concatenated, are the prompts of the joined list |
| `Deepseek.ProgressLines` | deepseek.py:82 | one progress message per batch processed |
| `Deepseek.ProgressAt` | deepseek.py:82 | message `j` shows batch number `j + 1` out of the total |
| `Deepseek.BatchExtends` | deepseek.py:81 | appending a batch's answers, delays and prompts extends each trace by exactly that range of questions |
| `Deepseek.AnswerBatch` | deepseek.py:67-80 | the inner loop gives one answer per question of the batch, from that question's call; exactly one 1-second sleep per question; exactly one prompt sent per question |
| `Deepseek.RunBatches` | deepseek.py:65-82 | the slices taken are `split_into_batches(questions, 5)`; the answers are one per question, in order; one sleep and one prompt per question; the progress messages number the batches `1 .. (n + 4) // 5` |
| `Deepseek.RunDeepseek` | deepseek.py:65-88 | the column written has `len(questions)` entries, entry `i` coming from question `i`'s own call |
| `Transcript.ExtractField` | output_convert.py:27-28 | the regex's group after the tag, stripped: leading whitespace, then at most one opening quote, then at most one closing quote are removed, then the rest is stripped; stated by `Transcript.ExtractFieldTrimmed`, `QuotedField` and `PlainField` |
| `Transcript.Classify` | output_convert.py:33-64 | the branches of the loop body in their order: blank, user line, answer line, `---` separator, unrecognised; stated by `Transcript.ClassifyUser` and `ClassifyAnswer` |
| `Transcript.ExtractFieldTrimmed` | output_convert.py:46 | an extracted field has no whitespace at either end |
| `Transcript.QuotedField` | output_convert.py:27-28 | after the tag, whitespace then `“text”` yields `text` exactly, for any trimmed text |
| `Transcript.PlainField` | output_convert.py:27-28 | after the tag, whitespace then unquoted trimmed text yields that text exactly |
| `Transcript.ClassifyUser` | output_convert.py:38-46 | `用户：` followed by plain text is a user line carrying that text |
| `Transcript.ClassifyAnswer` | output_convert.py:50-56 | `回答：` followed by plain text is an answer line carrying that text, not a user line |
| `Transcript.Kinds` | output_convert.py:32 | one kind per line; that kind `i` is line `i`'s classification is stated by `Transcript.KindsAt` |
| `Transcript.KindsAt` | output_convert.py:32-33 | kind `i` is the classification of line `i` alone |
| `Transcript.KindsAppend` | output_convert.py:32 | the kinds of two files in turn are the kinds of their concatenation |
| `Transcript.Step` | output_convert.py:38-57 | what one classified line does to the pending user, the pending answer and the pair list; stated by `Transcript.StepWellFormed`, `IgnoredLine`, `OrphanAnswer`, `UserLineStep` and `LastAnswerLineWins` |
| `Transcript.Finish` | output_convert.py:66-68 | the final save of a complete pending pair; stated by `Transcript.ConversationsComplete` |
| `Transcript.StepWellFormed` | output_convert.py:41-56 | one line keeps the invariant: a pending answer implies a pending user, and every saved pair is complete |
| `Transcript.RunWellFormed` | output_convert.py:32-64 | that invariant holds after any sequence of lines |
| `Transcript.ConversationsComplete` | output_convert.py:67-68 | every pair the file yields, including the one saved at the end, has a non-empty user and a non-empty answer |
| `Transcript.IgnoredLine` | output_convert.py:33-35 | a line that is blank after strip, starts with `---`, or is unrecognised leaves the pending user, the pending answer and the pair list unchanged |
| `Transcript.IgnoredAnywhere` | output_convert.py:60-64 | an ignorable line kind can be removed from anywhere in the kind sequence without changing the state at the end |
| `Transcript.IgnoredLineAnywhere` | output_convert.py:33-64 | a blank, `---` or unrecognised line can be removed from anywhere in the file without changing the state at the end |
| `Transcript.OrphanAnswer` | output_convert.py:52-54 | an answer line while no user is pending changes nothing |
| `Transcript.UserLineStep` | output_convert.py:40-46 | a user line saves the pending pair and clears the answer exactly when both pending fields are non-empty; otherwise it only replaces the pending user, dropping an unanswered earlier one |
| `Transcript.LastAnswerWins` | output_convert.py:56 | two answer kinds in a row have the effect of the second alone |
| `Transcript.LastAnswerLineWins` | output_convert.py:50-56 | two answer lines in a row, anywhere in the file, have the effect of the second alone |
| `Transcript.PairsOnlyGrow` | output_convert.py:42 | over any kind sequence the pair list only grows, at its end |
| `Transcript.SavedPairsStay` | output_convert.py:41-44 | reading more lines of the file never changes or removes a pair already saved |
| `Transcript.ScanTranscript` | output_convert.py:32-68 | the line loop with its `continue`s and the final save yields exactly `Conversations(lines)`, and every pair is complete |
| `Transcript.Group` | output_convert.py:78-89 | pairs `0, 1`, then `2, 3`, and so on, one row per two pairs; stated by `Transcript.GroupCount`, `GroupAt` and `GroupRoundTrip` |
| `Transcript.GroupCount` | output_convert.py:79 | there are `ceil(n / 2)` rows |
| `Transcript.GroupAt` | output_convert.py:80-88 | row `k` holds pair `2k` and, when present, pair `2k + 1`; `User2` / `Answer2` are `""` when `2k + 1 == n` |
| `Transcript.GroupRoundTrip` | output_convert.py:78-89 | reading the rows back in field order gives the pair list, plus one empty pair when `n` is odd |
| `Transcript.GroupAppend` | output_convert.py:79 | grouping an even-length prefix and the rest separately gives the same rows as grouping the whole |
| `Transcript.GroupPairs` | output_convert.py:78-89 | the row-building loop yields exactly `Group(pairs)` |
| `Transcript.ConvertTranscript` | output_convert.py:73-89 | no table exactly when no pair was found; otherwise the grouped rows, `ceil(n / 2)` of them |
| `Transcript.LoneAnswer` | output_convert.py:52-54 | a file with only an answer line yields no pair |
| `Transcript.OneExchange` | output_convert.py:38-68 | a user line then an answer line yield one pair, and its row has an empty second half |
| `Transcript.ExchangeThenUser` | output_convert.py:40-46 | a user line after a complete exchange saves that exchange and starts a new pending user |
| `Transcript.TwoExchanges` | output_convert.py:38-89 | two complete exchanges yield two pairs in order and one full row |

## Left out

- HTTP and SDK transport, JSON encoding and decoding, `raise_for_status`,
  `google.generativeai` configuration: every attempt is an outcome the caller
  supplies, as described above.
- Exceptions that `get_answers_batch` does not catch, for example a `KeyError`
  or `TypeError` from an oddly typed JSON body, or a body whose `candidates` is
  not a list. These stop the script. The model only covers well-typed bodies
  and `requests` exceptions. A body that fails to decode counts as `Transient`.
  Recent versions of `requests` raise their decode error as a
  `RequestException`; older versions raise a plain `ValueError`, which is not
  caught and is likewise left out.
- CSV reading with the `gbk` / `gb18030` fallback, the `content` column check,
  `dropna().astype(str)`, the DataFrame column assignment and `to_csv`. The
  question list is the input, and the answer column is the output. The pandas
  length check of `df['answer'] = answers` compares against DataFrame rows,
  which `dropna` can make differ from the question count. That is not modelled.
- The file I/O of `output_convert.py`: the existence check, opening the file,
  read errors and the CSV writer. The input is the file's sequence of lines.
- `Deepseek.SdkAnswer`: assumes that the success-path `print` of
  deepseek.py:75 does not raise. It runs inside the `try`, after the append.
  If it raised, for example on a console encoding that lacks a character of the
  answer, the `except` would append a second `""` for the same question. All
  later answers would shift by one and the column assignment would fail. The
  model covers only exceptions raised by the call and by `response.text`.
- `print`, `logging` and the progress text. Real `time.sleep` is recorded as a
  trace of seconds.
- `test_single_question` in gemini.py, a one-off diagnostic call.
- generator_prompt.py is not part of this model. It drives a GUI through
  keystrokes and the clipboard.
- `Strings.IsSpace`: Python's full Unicode whitespace set for `str.strip` and
  `\s` is not listed. The predicate holds the ASCII whitespace and a few Unicode
  spaces. Every `Strings` lemma holds whatever the set is. The `Transcript`
  lemmas about concrete lines need only that the first characters of the tags
  (`用`, `回`) and the quote characters are not whitespace.
- `Batches.SplitIntoBatches`: it requires `batch_size >= 1`. A step of 0 makes
  `range` raise, and both scripts use 5.
- `Transcript.Classify`: a stripped line cannot hold `\n`, so the regex's `.`
  and `$` behave as on a plain string. The model treats the text after the tag
  accordingly.
- The module-level script of deepseek.py has no early return for an empty
  question list. `Deepseek.RunDeepseek` then yields an empty column, which is
  the source's behaviour.
- Concurrency, real time and rate limits are outside the model.
