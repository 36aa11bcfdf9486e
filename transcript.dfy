/**
 * The transcript converter `convert_markdown_to_csv_four_columns`: a
 * line-driven state machine that collects (user, answer) pairs from a
 * two-role transcript, and the grouping of those pairs two per row into
 * the four columns User1, Answer1, User2, Answer2.
 *
 * The file is given as its sequence of lines. A pending field that the
 * script holds as `None` is the empty string here: the script only ever
 * tests those fields for truthiness, and `None` and `""` are both false.
 */
module Transcript {
  import opened Common
  import opened Strings

  const UserTag: string := "用户："
  const AnswerTag: string := "回答："
  const SeparatorTag: string := "---"

  // ---- Classifying one line ----

  /** How the loop body treats one line once it has been stripped. */
  datatype LineKind =
    | Blank
    | UserLine(text: string)
    | AnswerLine(text: string)
    | SeparatorLine
    | Unrecognised

  predicate IsOpeningQuote(c: char) { c == '“' || c == '"' }

  predicate IsClosingQuote(c: char) { c == '”' || c == '"' }

  /** The optional `[“"]?` after the tag and its whitespace. */
  function DropOpening(s: string): string
  {
    if |s| > 0 && IsOpeningQuote(s[0]) then s[1..] else s
  }

  /**
   * The optional `[”"]?` before the end: the lazy group `(.*?)` leaves a
   * final closing quote to it whenever there is one.
   */
  function DropClosing(s: string): string
  {
    if |s| > 0 && IsClosingQuote(s[|s| - 1]) then s[..|s| - 1] else s
  }

  /**
   * `group(1).strip()` of `^TAG\s*[“"]?(.*?)[”"]?$` for the text after the
   * tag: leading whitespace, then at most one opening quote, then at most
   * one closing quote are removed, and the rest is stripped.
   */
  function ExtractField(rest: string): string
  {
    Strip(DropClosing(DropOpening(LStrip(rest))))
  }

  /** An extracted field never starts or ends with whitespace. */
  lemma ExtractFieldTrimmed(rest: string)
    ensures var r := ExtractField(rest); r != [] ==> !IsSpace(r[0]) && !IsSpace(r[|r| - 1])
  {
    StripSpec(DropClosing(DropOpening(LStrip(rest))));
  }

  /**
   * The branches of the loop body, in their order: blank after stripping,
   * a user line, an answer line, a `---` separator, anything else.
   */
  function Classify(raw: string): LineKind
  {
    var line := Strip(raw);
    if line == [] then Blank
    else if StartsWith(line, UserTag) then UserLine(ExtractField(line[|UserTag|..]))
    else if StartsWith(line, AnswerTag) then AnswerLine(ExtractField(line[|AnswerTag|..]))
    else if StartsWith(line, SeparatorTag) then SeparatorLine
    else Unrecognised
  }

  predicate Ignorable(kind: LineKind)
  {
    kind.Blank? || kind.SeparatorLine? || kind.Unrecognised?
  }

  /** Text wrapped in curly quotes, after any whitespace, is recovered as it was. */
  lemma QuotedField(ws: string, t: string)
    requires AllSpace(ws)
    requires t != [] ==> !IsSpace(t[0]) && !IsSpace(t[|t| - 1])
    ensures ExtractField(ws + ['“'] + t + ['”']) == t
  {
    var closed := t + ['”'];
    var quoted := ['“'] + closed;
    assert ws + ['“'] + t + ['”'] == ws + quoted;
    assert quoted[0] == '“' && !IsSpace(quoted[0]);
    LStripSpaces(ws, quoted);
    assert quoted[1..] == closed;
    assert DropOpening(quoted) == closed;
    assert closed[|closed| - 1] == '”' && closed[..|closed| - 1] == t;
    assert DropClosing(closed) == t;
    FieldOfTrimmed(ws + ['“'] + t + ['”'], t);
  }

  /** When the quotes come off to leave text with no whitespace at its ends, that text is the field. */
  lemma FieldOfTrimmed(rest: string, t: string)
    requires DropClosing(DropOpening(LStrip(rest))) == t
    requires t != [] ==> !IsSpace(t[0]) && !IsSpace(t[|t| - 1])
    ensures ExtractField(rest) == t
  {
    StripTrimmed(t);
  }

  /** Unquoted text, after any whitespace, is recovered as it was. */
  lemma PlainField(ws: string, t: string)
    requires AllSpace(ws)
    requires t != [] ==> !IsSpace(t[0]) && !IsSpace(t[|t| - 1])
    requires t != [] ==> !IsOpeningQuote(t[0]) && !IsClosingQuote(t[|t| - 1])
    ensures ExtractField(ws + t) == t
  {
    LStripSpaces(ws, t);
    StripTrimmed(t);
  }

  /** Text with no whitespace or quote at its ends. */
  predicate Plain(t: string)
  {
    t != [] && !IsSpace(t[0]) && !IsSpace(t[|t| - 1]) && !IsOpeningQuote(t[0]) && !IsClosingQuote(t[|t| - 1])
  }

  lemma PlainFieldBare(t: string)
    requires Plain(t)
    ensures ExtractField(t) == t
  {
    PlainField([], t);
    assert [] + t == t;
  }

  /** A tag followed by plain text strips to itself, starts with the tag, and its field is that text. */
  lemma TaggedLine(tag: string, t: string)
    requires tag != [] && !IsSpace(tag[0])
    requires Plain(t)
    ensures Strip(tag + t) == tag + t
    ensures StartsWith(tag + t, tag)
    ensures (tag + t)[|tag|..] == t
  {
    var line := tag + t;
    assert line[0] == tag[0] && line[|line| - 1] == t[|t| - 1];
    StripTrimmed(line);
    assert line[..|tag|] == tag;
    assert line[|tag|..] == t;
  }

  /** A user tag followed by plain text is a user line with that text. */
  lemma ClassifyUser(t: string)
    requires Plain(t)
    ensures Classify(UserTag + t) == UserLine(t)
  {
    TaggedLine(UserTag, t);
    PlainFieldBare(t);
  }

  /** An answer tag followed by plain text is an answer line with that text. */
  lemma ClassifyAnswer(t: string)
    requires Plain(t)
    ensures Classify(AnswerTag + t) == AnswerLine(t)
  {
    TaggedLine(AnswerTag, t);
    PlainFieldBare(t);
    var line := AnswerTag + t;
    assert !StartsWith(line, UserTag) by {
      assert line[0] == AnswerTag[0];
      assert line[..|UserTag|][0] == line[0];
    }
  }

  // ---- The state machine ----

  datatype Pair = Pair(user: string, answer: string)

  /** `current_user`, `current_answer` and `conversations`. */
  datatype ScanState = ScanState(user: string, answer: string, pairs: seq<Pair>)

  const Start: ScanState := ScanState([], [], [])

  /** What one line does to the state. */
  function Step(st: ScanState, kind: LineKind): (r: ScanState)
  {
    match kind
    case UserLine(u) =>
      if st.user != [] && st.answer != [] then ScanState(u, [], st.pairs + [Pair(st.user, st.answer)])
      else ScanState(u, st.answer, st.pairs)
    case AnswerLine(a) =>
      if st.user == [] then st else ScanState(st.user, a, st.pairs)
    case _ => st
  }

  /** The state after the line kinds `kinds`, in order. */
  function Run(kinds: seq<LineKind>): ScanState
    decreases |kinds|
  {
    if kinds == [] then Start
    else Step(Run(kinds[..|kinds| - 1]), kinds[|kinds| - 1])
  }

  /** The kind of every line, in order. */
  function Kinds(lines: seq<string>): (r: seq<LineKind>)
    ensures |r| == |lines|
    decreases |lines|
  {
    if lines == [] then [] else Kinds(lines[..|lines| - 1]) + [Classify(lines[|lines| - 1])]
  }

  /** Kind `i` is the classification of line `i`: each line is classified on its own, in order. */
  lemma {:induction false} KindsAt(lines: seq<string>, i: nat)
    requires i < |lines|
    ensures Kinds(lines)[i] == Classify(lines[i])
    decreases |lines|
  {
    var n := |lines| - 1;
    assert Kinds(lines) == Kinds(lines[..n]) + [Classify(lines[n])];
    if i < n {
      KindsAt(lines[..n], i);
      assert lines[..n][i] == lines[i];
    }
  }

  /** The kinds of two files in turn are the kinds of their concatenation. */
  lemma {:induction false} KindsAppend(a: seq<string>, b: seq<string>)
    ensures Kinds(a + b) == Kinds(a) + Kinds(b)
    decreases |b|
  {
    if b == [] {
      assert a + b == a;
    } else {
      var m := |b| - 1;
      KindsAppend(a, b[..m]);
      assert (a + b)[..|a + b| - 1] == a + b[..m];
      assert (a + b)[|a + b| - 1] == b[m];
    }
  }

  /** The state after the lines `lines`, in order. */
  function Scan(lines: seq<string>): ScanState
  {
    Run(Kinds(lines))
  }

  /** The final `if current_user and current_answer` that saves the last pair. */
  function Finish(st: ScanState): seq<Pair>
  {
    if st.user != [] && st.answer != [] then st.pairs + [Pair(st.user, st.answer)] else st.pairs
  }

  /** The pair list the file yields. */
  function Conversations(lines: seq<string>): seq<Pair>
  {
    Finish(Scan(lines))
  }

  predicate Complete(p: Pair) { p.user != [] && p.answer != [] }

  /** A pending answer only ever follows a pending user, and every saved pair is complete. */
  predicate WellFormed(st: ScanState)
  {
    && (st.answer != [] ==> st.user != [])
    && forall k :: 0 <= k < |st.pairs| ==> Complete(st.pairs[k])
  }

  lemma StepWellFormed(st: ScanState, kind: LineKind)
    requires WellFormed(st)
    ensures WellFormed(Step(st, kind))
  {
    var next := Step(st, kind);
    forall k | 0 <= k < |next.pairs| ensures Complete(next.pairs[k]) {
      if k < |st.pairs| {
        assert next.pairs[k] == st.pairs[k];
      }
    }
  }

  /** The loop keeps `WellFormed` from its start, whatever the lines. */
  lemma {:induction false} RunWellFormed(kinds: seq<LineKind>)
    ensures WellFormed(Run(kinds))
    decreases |kinds|
  {
    if kinds != [] {
      RunWellFormed(kinds[..|kinds| - 1]);
      StepWellFormed(Run(kinds[..|kinds| - 1]), kinds[|kinds| - 1]);
    }
  }

  /** Every pair the file yields has a non-empty user and a non-empty answer. */
  lemma ConversationsComplete(lines: seq<string>)
    ensures forall k :: 0 <= k < |Conversations(lines)| ==> Complete(Conversations(lines)[k])
  {
    RunWellFormed(Kinds(lines));
    var st := Scan(lines);
    var c := Conversations(lines);
    forall k | 0 <= k < |c| ensures Complete(c[k]) {
      if k < |st.pairs| {
        assert c[k] == st.pairs[k];
      }
    }
  }

  lemma RunSnoc(kinds: seq<LineKind>, kind: LineKind)
    ensures Run(kinds + [kind]) == Step(Run(kinds), kind)
  {
    assert (kinds + [kind])[..|kinds|] == kinds;
  }

  lemma ScanSnoc(lines: seq<string>, raw: string)
    ensures Scan(lines + [raw]) == Step(Scan(lines), Classify(raw))
  {
    assert (lines + [raw])[..|lines|] == lines;
    RunSnoc(Kinds(lines), Classify(raw));
  }

  /** Blank, separator and unrecognised lines leave the state as it was. */
  lemma IgnoredLine(lines: seq<string>, raw: string)
    requires Ignorable(Classify(raw))
    ensures Scan(lines + [raw]) == Scan(lines)
  {
    ScanSnoc(lines, raw);
  }

  /**
   * Such a line can be dropped from anywhere in the file without changing
   * the state at any later point.
   */
  lemma {:induction false} IgnoredAnywhere(before: seq<LineKind>, kind: LineKind, after: seq<LineKind>)
    requires Ignorable(kind)
    ensures Run(before + [kind] + after) == Run(before + after)
    decreases |after|
  {
    if after == [] {
      assert before + [kind] + after == before + [kind];
      assert before + after == before;
      RunSnoc(before, kind);
    } else {
      var m := |after| - 1;
      var last := after[m];
      IgnoredAnywhere(before, kind, after[..m]);
      assert before + [kind] + after == (before + [kind] + after[..m]) + [last];
      assert before + after == (before + after[..m]) + [last];
      RunSnoc(before + [kind] + after[..m], last);
      RunSnoc(before + after[..m], last);
    }
  }

  /** An answer line while no user is pending is skipped. */
  lemma OrphanAnswer(lines: seq<string>, raw: string)
    requires Classify(raw).AnswerLine?
    requires Scan(lines).user == []
    ensures Scan(lines + [raw]) == Scan(lines)
  {
    ScanSnoc(lines, raw);
  }

  /**
   * A user line saves the pending pair, and clears the pending answer, exactly
   * when both pending fields are non-empty; otherwise it only replaces the
   * pending user, so an unanswered earlier user is lost. Either way the
   * pending user becomes the line's text.
   */
  lemma UserLineStep(lines: seq<string>, raw: string)
    requires Classify(raw).UserLine?
    ensures var st := Scan(lines);
      var next := Scan(lines + [raw]);
      && next.user == Classify(raw).text
      && (st.user != [] && st.answer != [] ==>
            next.pairs == st.pairs + [Pair(st.user, st.answer)] && next.answer == [])
      && (!(st.user != [] && st.answer != []) ==> next.pairs == st.pairs && next.answer == st.answer)
  {
    ScanSnoc(lines, raw);
  }

  /** A second answer line before the next user line replaces the first: the last answer wins. */
  lemma LastAnswerWins(kinds: seq<LineKind>, first: string, second: string)
    ensures Run(kinds + [AnswerLine(first), AnswerLine(second)]) == Run(kinds + [AnswerLine(second)])
  {
    RunSnoc(kinds, AnswerLine(first));
    RunSnoc(kinds + [AnswerLine(first)], AnswerLine(second));
    assert kinds + [AnswerLine(first)] + [AnswerLine(second)] == kinds + [AnswerLine(first), AnswerLine(second)];
    RunSnoc(kinds, AnswerLine(second));
  }

  /** Pairs once saved stay saved: the pair list only grows at its end. */
  lemma {:induction false} PairsOnlyGrow(kinds: seq<LineKind>, more: seq<LineKind>)
    ensures Run(kinds).pairs <= Run(kinds + more).pairs
    decreases |more|
  {
    if more == [] {
      assert kinds + more == kinds;
    } else {
      var m := |more| - 1;
      PairsOnlyGrow(kinds, more[..m]);
      assert kinds + more == (kinds + more[..m]) + [more[m]];
      RunSnoc(kinds + more[..m], more[m]);
    }
  }

  /**
   * A blank, separator or unrecognised line can be dropped from anywhere in
   * the file without changing the state at the end.
   */
  lemma IgnoredLineAnywhere(before: seq<string>, raw: string, after: seq<string>)
    requires Ignorable(Classify(raw))
    ensures Scan(before + [raw] + after) == Scan(before + after)
  {
    KindsAppend(before + [raw], after);
    KindsAppend(before, [raw]);
    KindsAppend(before, after);
    assert Kinds([raw]) == [Classify(raw)] by {
      assert [raw][..0] == [];
    }
    IgnoredAnywhere(Kinds(before), Classify(raw), Kinds(after));
  }

  /** Two answer lines in a row anywhere in the file have the effect of the second alone. */
  lemma LastAnswerLineWins(lines: seq<string>, first: string, second: string)
    requires Classify(first).AnswerLine? && Classify(second).AnswerLine?
    ensures Scan(lines + [first, second]) == Scan(lines + [second])
  {
    ScanSnoc(lines, first);
    ScanSnoc(lines + [first], second);
    assert lines + [first] + [second] == lines + [first, second];
    ScanSnoc(lines, second);
  }

  /** Reading more lines never changes or removes a pair already saved. */
  lemma SavedPairsStay(lines: seq<string>, more: seq<string>)
    ensures Scan(lines).pairs <= Scan(lines + more).pairs
  {
    KindsAppend(lines, more);
    PairsOnlyGrow(Kinds(lines), Kinds(more));
  }

  /**
   * The `for line in f` loop and the final save: the locals walk through
   * the states of `Scan`, and the list built is `Conversations(lines)`,
   * every pair of it complete.
   */
  method ScanTranscript(lines: seq<string>) returns (conversations: seq<Pair>)
    ensures conversations == Conversations(lines)
    ensures forall k :: 0 <= k < |conversations| ==> Complete(conversations[k])
  {
    var currentUser: string := [];
    var currentAnswer: string := [];
    conversations := [];
    for j := 0 to |lines|
      invariant ScanState(currentUser, currentAnswer, conversations) == Scan(lines[..j])
    {
      ScanSnoc(lines[..j], lines[j]);
      assert lines[..j + 1] == lines[..j] + [lines[j]];
      var line := Strip(lines[j]);
      if line == [] {
        continue;
      }
      if StartsWith(line, UserTag) {
        if currentUser != [] && currentAnswer != [] {
          conversations := conversations + [Pair(currentUser, currentAnswer)];
          currentUser := [];
          currentAnswer := [];
        }
        currentUser := ExtractField(line[|UserTag|..]);
        continue;
      }
      if StartsWith(line, AnswerTag) {
        if currentUser == [] {
          continue;
        }
        currentAnswer := ExtractField(line[|AnswerTag|..]);
        continue;
      }
      if StartsWith(line, SeparatorTag) {
        continue;
      }
    }
    assert lines[..|lines|] == lines;
    if currentUser != [] && currentAnswer != [] {
      conversations := conversations + [Pair(currentUser, currentAnswer)];
    }
    ConversationsComplete(lines);
  }

  // ---- Two pairs per row ----

  /** One output row; a missing second pair leaves `User2`/`Answer2` empty. */
  datatype Row = Row(user1: string, answer1: string, user2: string, answer2: string)

  /** Pairs `0, 1`, then `2, 3`, and so on, one row per two pairs. */
  function Group(pairs: seq<Pair>): (r: seq<Row>)
    decreases |pairs|
  {
    if pairs == [] then []
    else if |pairs| == 1 then [Row(pairs[0].user, pairs[0].answer, [], [])]
    else [Row(pairs[0].user, pairs[0].answer, pairs[1].user, pairs[1].answer)] + Group(pairs[2..])
  }

  /** The rows read back in field order, two pairs per row. */
  function Ungroup(rows: seq<Row>): (r: seq<Pair>)
    decreases |rows|
  {
    if rows == [] then []
    else [Pair(rows[0].user1, rows[0].answer1), Pair(rows[0].user2, rows[0].answer2)] + Ungroup(rows[1..])
  }

  /** There are `ceil(n / 2)` rows. */
  lemma {:induction false} GroupCount(pairs: seq<Pair>)
    ensures |Group(pairs)| == (|pairs| + 1) / 2
    decreases |pairs|
  {
    if |pairs| >= 2 {
      GroupCount(pairs[2..]);
    }
  }

  /**
   * Reading the rows back gives the pair list, followed by one empty pair
   * when the number of pairs is odd.
   */
  lemma {:induction false} GroupRoundTrip(pairs: seq<Pair>)
    ensures Ungroup(Group(pairs)) == pairs + (if |pairs| % 2 == 1 then [Pair([], [])] else [])
    decreases |pairs|
  {
    if |pairs| == 1 {
      assert Ungroup(Group(pairs)) == [pairs[0], Pair([], [])] + Ungroup([]);
    } else if |pairs| >= 2 {
      var rows := Group(pairs);
      assert rows[1..] == Group(pairs[2..]);
      GroupRoundTrip(pairs[2..]);
      assert pairs == [pairs[0], pairs[1]] + pairs[2..];
    }
  }

  /**
   * Row `k` holds pair `2k` and, when there is one, pair `2k + 1`; its
   * second half is empty when `2k + 1 == n`.
   */
  lemma {:induction false} GroupAt(pairs: seq<Pair>, k: nat)
    requires 2 * k < |pairs|
    ensures k < |Group(pairs)|
    ensures Group(pairs)[k].user1 == pairs[2 * k].user && Group(pairs)[k].answer1 == pairs[2 * k].answer
    ensures 2 * k + 1 < |pairs| ==> Group(pairs)[k].user2 == pairs[2 * k + 1].user && Group(pairs)[k].answer2 == pairs[2 * k + 1].answer
    ensures 2 * k + 1 == |pairs| ==> Group(pairs)[k].user2 == [] && Group(pairs)[k].answer2 == []
    decreases k
  {
    if k > 0 {
      GroupAt(pairs[2..], k - 1);
      assert Group(pairs)[k] == Group(pairs[2..])[k - 1];
    }
  }

  /** Grouping an even-length prefix and the rest separately and concatenating is grouping the whole. */
  lemma {:induction false} GroupAppend(a: seq<Pair>, b: seq<Pair>)
    requires |a| % 2 == 0
    ensures Group(a + b) == Group(a) + Group(b)
    decreases |a|
  {
    if a == [] {
      assert a + b == b;
    } else {
      assert (a + b)[2..] == a[2..] + b;
      assert (a + b)[0] == a[0] && (a + b)[1] == a[1];
      GroupAppend(a[2..], b);
    }
  }

  /** One round of the grouping loop: the next one or two pairs become one more row. */
  lemma GroupStep(pairs: seq<Pair>, i: nat, row: Row)
    requires i % 2 == 0 && i < |pairs|
    requires row == if i + 1 < |pairs| then Row(pairs[i].user, pairs[i].answer, pairs[i + 1].user, pairs[i + 1].answer)
                    else Row(pairs[i].user, pairs[i].answer, [], [])
    ensures Group(pairs[..Min(i + 2, |pairs|)]) == Group(pairs[..i]) + [row]
  {
    var end := Min(i + 2, |pairs|);
    GroupAppend(pairs[..i], pairs[i..end]);
    SliceConcat(pairs, i, end);
    assert Group(pairs[i..end]) == [row];
  }

  /**
   * The `for i in range(0, len(conversations), 2)` loop: build a row from
   * pair `i`, fill in its second half from pair `i + 1` when there is one,
   * and append it.
   */
  method GroupPairs(pairs: seq<Pair>) returns (rows: seq<Row>)
    ensures rows == Group(pairs)
  {
    rows := [];
    var n := |pairs|;
    var i := 0;
    while i < n
      invariant i % 2 == 0 && i <= n + 1
      invariant rows == Group(pairs[..Min(i, n)])
    {
      var row := Row(pairs[i].user, pairs[i].answer, [], []);
      if i + 1 < n {
        row := row.(user2 := pairs[i + 1].user, answer2 := pairs[i + 1].answer);
      }
      GroupStep(pairs, i, row);
      rows := rows + [row];
      i := i + 2;
    }
    assert pairs[..n] == pairs;
  }

  /**
   * The whole conversion after the file has been read: no table at all
   * when no pair was found, and otherwise the grouped rows, `ceil(n / 2)`
   * of them for `n` pairs.
   */
  method ConvertTranscript(lines: seq<string>) returns (table: Option<seq<Row>>)
    ensures table.None? <==> Conversations(lines) == []
    ensures table.Some? ==> table.value == Group(Conversations(lines))
    ensures table.Some? ==> |table.value| == (|Conversations(lines)| + 1) / 2
  {
    var conversations := ScanTranscript(lines);
    if conversations == [] {
      return None;
    }
    var rows := GroupPairs(conversations);
    GroupCount(conversations);
    table := Some(rows);
  }

  // ---- Exchanges ----

  /** A single user line leaves that user pending and saves nothing. */
  lemma LoneUser(u: string)
    requires Plain(u)
    ensures Scan([UserTag + u]) == ScanState(u, [], [])
  {
    ClassifyUser(u);
    ScanSnoc([], UserTag + u);
    assert [] + [UserTag + u] == [UserTag + u];
  }

  /** An answer with no user before it yields nothing. */
  lemma LoneAnswer(a: string)
    requires Plain(a)
    ensures Conversations([AnswerTag + a]) == []
  {
    ClassifyAnswer(a);
    ScanSnoc([], AnswerTag + a);
    assert [] + [AnswerTag + a] == [AnswerTag + a];
  }

  /** One exchange alone is one pair, and its row has an empty second half. */
  lemma OneExchange(u: string, a: string)
    requires Plain(u) && Plain(a)
    ensures var lines := [UserTag + u, AnswerTag + a];
      && Scan(lines) == ScanState(u, a, [])
      && Conversations(lines) == [Pair(u, a)]
      && Group(Conversations(lines)) == [Row(u, a, [], [])]
  {
    LoneUser(u);
    ClassifyAnswer(a);
    ScanSnoc([UserTag + u], AnswerTag + a);
    assert [UserTag + u] + [AnswerTag + a] == [UserTag + u, AnswerTag + a];
  }

  /** A user line after a complete exchange saves that exchange. */
  lemma ExchangeThenUser(u1: string, a1: string, u2: string)
    requires Plain(u1) && Plain(a1) && Plain(u2)
    ensures Scan([UserTag + u1, AnswerTag + a1, UserTag + u2]) == ScanState(u2, [], [Pair(u1, a1)])
  {
    OneExchange(u1, a1);
    ClassifyUser(u2);
    ScanSnoc([UserTag + u1, AnswerTag + a1], UserTag + u2);
    assert [UserTag + u1, AnswerTag + a1] + [UserTag + u2] == [UserTag + u1, AnswerTag + a1, UserTag + u2];
  }

  /** After two exchanges the first is saved and the second is still pending. */
  lemma TwoExchangesScan(u1: string, a1: string, u2: string, a2: string)
    requires Plain(u1) && Plain(a1) && Plain(u2) && Plain(a2)
    ensures Scan([UserTag + u1, AnswerTag + a1, UserTag + u2, AnswerTag + a2])
         == ScanState(u2, a2, [Pair(u1, a1)])
  {
    var three := [UserTag + u1, AnswerTag + a1, UserTag + u2];
    ExchangeThenUser(u1, a1, u2);
    ClassifyAnswer(a2);
    ScanSnoc(three, AnswerTag + a2);
    assert three + [AnswerTag + a2] == [UserTag + u1, AnswerTag + a1, UserTag + u2, AnswerTag + a2];
  }

  /** Two complete exchanges make one full row. */
  lemma TwoExchanges(u1: string, a1: string, u2: string, a2: string)
    requires Plain(u1) && Plain(a1) && Plain(u2) && Plain(a2)
    ensures var lines := [UserTag + u1, AnswerTag + a1, UserTag + u2, AnswerTag + a2];
      && Conversations(lines) == [Pair(u1, a1), Pair(u2, a2)]
      && Group(Conversations(lines)) == [Row(u1, a1, u2, a2)]
  {
    TwoExchangesScan(u1, a1, u2, a2);
    var pairs := [Pair(u1, a1), Pair(u2, a2)];
    assert pairs[2..] == [];
    assert Group(pairs) == [Row(u1, a1, u2, a2)] + Group(pairs[2..]);
  }
}
