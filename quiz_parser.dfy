/**
 * The reply parser of `generate_questions`: the raw text of the language
 * model's reply is cut into blank-line separated blocks, and each block that
 * yields a question record, with its four options and its answer letter,
 * is kept in order. A block that raises anywhere is skipped.
 */
module QuizParser {
  import opened Wrappers
  import opened PyStr

  /** One quiz question: `{"text": ..., "options": {...}, "answer": ...}`. */
  datatype Record = Record(text: string, options: map<string, string>, answer: string)

  const BlockSeparator: string := "\n\n"
  const LineSeparator: string := "\n"
  const AnswerMarker: string := "Answer:"
  const OptionKeys: set<string> := {"A", "B", "C", "D"}

  /** The record invariant: options keyed exactly by A-D, the answer one of those keys. */
  predicate WellFormed(rec: Record) {
    rec.options.Keys == OptionKeys && rec.answer in rec.options
  }

  // ---------------------------------------------------------------------
  // Field extraction, one Python expression each

  /**
   * `parts[1].split('B. ')[0].replace('A. ', '').strip()`; cannot raise.
   * A line with neither marker is taken whole, stripped.
   */
  function OptionA(line: string): (r: string)
    ensures !Contains(line, "A. ") && !Contains(line, "B. ") ==> r == Strip(line)
  {
    var r := Strip(Replace(Split(line, "B. ")[0], "A. ", ""));
    assert !Contains(line, "A. ") && !Contains(line, "B. ") ==> r == Strip(line) by {
      if !Contains(line, "A. ") && !Contains(line, "B. ") {
        ReplaceAbsent(line, "A. ", "");
      }
    }
    r
  }

  /**
   * `parts[1].split('C. ')[0].replace('B. ', '').strip().split('B. ')[1]`.
   * `replace` removes every "B. " the cut holds, so the entry succeeds only
   * when `replace` itself leaves a new "B. " behind.
   */
  function OptionB(line: string): (r: Option<string>)
    ensures r.Some? ==> Contains(Replace(Split(line, "C. ")[0], "B. ", ""), "B. ")
    ensures r.Some? ==> Contains(line, "B. ") && !Contains(r.value, "B. ")
  {
    Entry(line, "C. ", "B. ")
  }

  /**
   * `parts[1].split('D. ')[0].replace('C. ', '').strip().split('C. ')[1]`.
   * As for B, it succeeds only when `replace` leaves a new "C. " behind.
   */
  function OptionC(line: string): (r: Option<string>)
    ensures r.Some? ==> Contains(Replace(Split(line, "D. ")[0], "C. ", ""), "C. ")
    ensures r.Some? ==> Contains(line, "C. ") && !Contains(r.value, "C. ")
  {
    Entry(line, "D. ", "C. ")
  }

  /**
   * The B and C entries: cut at `cut`, remove `pat`, strip, take the piece
   * after `pat`. There is such a piece only if the text `replace` returns
   * still holds `pat`.
   */
  function Entry(line: string, cut: string, pat: string): (r: Option<string>)
    requires cut != [] && pat != []
    ensures r.Some? ==> Contains(Replace(Split(line, cut)[0], pat, ""), pat)
    ensures r.Some? ==> Contains(line, pat) && !Contains(r.value, pat)
  {
    var replaced := Replace(Split(line, cut)[0], pat, "");
    var text := Strip(replaced);
    assert Contains(text, pat) ==> Contains(replaced, pat) by {
      if Contains(text, pat) {
        ContainsStrip(replaced, pat);
      }
    }
    assert Contains(text, pat) ==> Contains(line, pat) by {
      if !Contains(line, pat) {
        EntryFailsWithoutMarker(line, cut, pat);
      }
    }
    SplitPiecesFree(text, pat);
    Index(Split(text, pat), 1)
  }

  /**
   * `parts[1].strip().split('D. ')[1]`.
   * It succeeds only on a line holding "D. ", and the text it returns holds none.
   */
  function OptionD(line: string): (r: Option<string>)
    ensures r.Some? ==> Contains(line, "D. ") && !Contains(r.value, "D. ")
  {
    var text := Strip(line);
    assert Contains(text, "D. ") ==> Contains(line, "D. ") by {
      if Contains(text, "D. ") {
        ContainsStrip(line, "D. ");
      }
    }
    SplitPiecesFree(text, "D. ");
    Index(Split(text, "D. "), 1)
  }

  /** The `options` dictionary built from the second line, or `None` if an entry raises. */
  function ExtractOptions(line: string): (r: Option<map<string, string>>)
    ensures r.Some? ==> r.value.Keys == OptionKeys
    ensures r.Some? <==> OptionB(line).Some? && OptionC(line).Some? && OptionD(line).Some?
  {
    var b :- OptionB(line);
    var c :- OptionC(line);
    var d :- OptionD(line);
    Some(map["A" := OptionA(line), "B" := b, "C" := c, "D" := d])
  }

  /** `[line for line in parts if "Answer:" in line]`. */
  function AnswerLines(parts: seq<string>): (r: seq<string>)
    ensures forall k :: 0 <= k < |r| ==> Contains(r[k], AnswerMarker)
    ensures forall k :: 0 <= k < |r| ==> r[k] in parts
  {
    if parts == [] then []
    else (if Contains(parts[0], AnswerMarker) then [parts[0]] else []) + AnswerLines(parts[1..])
  }

  /** `answer_line = AnswerLines(parts)[0]` then `answer_line.split("Answer:")[1].strip()`. */
  function AnswerText(parts: seq<string>): (r: Option<string>)
    ensures r.Some? ==> exists k :: 0 <= k < |parts| && Contains(parts[k], AnswerMarker)
    ensures r.Some? ==> !Contains(r.value, AnswerMarker)
  {
    match Index(AnswerLines(parts), 0)
    case None => None
    case Some(line) =>
      match Index(Split(line, AnswerMarker), 1)
      case None => None
      case Some(after) =>
        SplitPiecesFree(line, AnswerMarker);
        StripLacks(after, AnswerMarker);
        Some(Strip(after))
  }

  /** The body of the `try` for one block; `None` when it raises or the answer is no key. */
  function ParseBlock(block: string): (r: Option<Record>)
    ensures r.Some? ==> WellFormed(r.value)
  {
    ParseLines(Split(block, LineSeparator))
  }

  /** The same, from the block's lines `question_parts` on. */
  function ParseLines(parts: seq<string>): (r: Option<Record>)
    requires parts != []
    ensures r.Some? ==> WellFormed(r.value)
  {
    var questionText := Strip(parts[0]);
    var line :- Index(parts, 1);
    var options :- ExtractOptions(line);
    var answer :- AnswerText(parts);
    if answer in options then Some(Record(questionText, options, answer)) else None
  }

  /** The records the loop appends, one block at a time, for a sequence of blocks. */
  function ParseBlocks(blocks: seq<string>): (r: seq<Record>)
    ensures |r| <= |blocks|
    ensures forall k :: 0 <= k < |r| ==> WellFormed(r[k])
  {
    if blocks == [] then []
    else
      var done := ParseBlocks(blocks[..|blocks| - 1]);
      match ParseBlock(blocks[|blocks| - 1])
      case None => done
      case Some(rec) => done + [rec]
  }

  /** The list `generate_questions` returns for a reply; total, so it never raises. */
  function ParseQuiz(response: string): (r: seq<Record>)
    ensures |r| <= |Split(response, BlockSeparator)|
    ensures forall k :: 0 <= k < |r| ==> WellFormed(r[k])
  {
    ParseBlocks(Split(response, BlockSeparator))
  }

  /** The parsing loop of `generate_questions`, over the model's reply. */
  method GenerateQuestions(response: string) returns (questions: seq<Record>)
    ensures questions == ParseQuiz(response)
    ensures forall k :: 0 <= k < |questions| ==> WellFormed(questions[k])
  {
    questions := [];
    var blocks := Split(response, BlockSeparator);
    var i := 0;
    while i < |blocks|
      invariant 0 <= i <= |blocks|
      invariant questions == ParseBlocks(blocks[..i])
    {
      assert blocks[..i + 1][..i] == blocks[..i];
      var parsed := ParseBlock(blocks[i]);
      if parsed.Some? {
        questions := questions + [parsed.value];
      }
      i := i + 1;
    }
    assert blocks[..i] == blocks;
  }

  /** Parsing the same reply twice gives the same list: nothing but the text decides it. */
  method ParseTwice(response: string) returns (first: seq<Record>, second: seq<Record>)
    ensures first == second
  {
    first := GenerateQuestions(response);
    second := GenerateQuestions(response);
  }

  // ---------------------------------------------------------------------
  // Blocks that yield nothing

  /** The empty reply is one empty block, which has no second line. */
  lemma EmptyReplyYieldsNothing()
    ensures ParseQuiz("") == []
  {
    assert Find("", BlockSeparator) == None;
    assert Split("", BlockSeparator) == [""];
    assert Find("", LineSeparator) == None;
    assert ParseBlock("") == None;
    assert [""][..0] == [];
  }

  /** A block without a line break has no second line. */
  lemma SingleLineBlockYieldsNothing(block: string)
    requires !Contains(block, LineSeparator)
    ensures ParseBlock(block) == None
  {
  }

  /** A block in which no line contains "Answer:" yields nothing. */
  lemma NoAnswerLineYieldsNothing(block: string)
    requires !Contains(block, AnswerMarker)
    ensures ParseBlock(block) == None
  {
    var parts := Split(block, LineSeparator);
    LinesLack(block, AnswerMarker);
    NoMarkedLine(parts);
    assert AnswerText(parts) == None;
  }

  lemma {:induction false} NoMarkedLine(parts: seq<string>)
    requires forall k :: 0 <= k < |parts| ==> !Contains(parts[k], AnswerMarker)
    ensures AnswerLines(parts) == []
    decreases |parts|
  {
    if parts != [] {
      NoMarkedLine(parts[1..]);
    }
  }

  /** A text missing from the block is missing from each of its lines. */
  lemma LinesLack(block: string, pat: string)
    requires pat != []
    requires !Contains(block, pat)
    ensures forall k :: 0 <= k < |Split(block, LineSeparator)| ==> !Contains(Split(block, LineSeparator)[k], pat)
  {
    forall k | 0 <= k < |Split(block, LineSeparator)|
      ensures !Contains(Split(block, LineSeparator)[k], pat)
    {
      if Contains(Split(block, LineSeparator)[k], pat) {
        SplitPieceContains(block, LineSeparator, k, pat);
      }
    }
  }

  /** An answer that is not one of the four keys ("E", "a", "") drops the block; nothing is substituted. */
  lemma AnswerOutsideKeysDropped(block: string)
    requires AnswerText(Split(block, LineSeparator)).Some?
    requires AnswerText(Split(block, LineSeparator)).value !in OptionKeys
    ensures ParseBlock(block) == None
  {
  }

  /** The one entry shape shared by B and C: it fails when the line lacks its marker. */
  lemma EntryFailsWithoutMarker(line: string, cut: string, pat: string)
    requires cut != [] && pat != []
    requires !Contains(line, pat)
    ensures Index(Split(Strip(Replace(Split(line, cut)[0], pat, "")), pat), 1) == None
  {
    var head := Split(line, cut)[0];
    if Contains(head, pat) {
      SplitPieceContains(line, cut, 0, pat);
    }
    ReplaceAbsent(head, pat, "");
    if Contains(Strip(head), pat) {
      ContainsStrip(head, pat);
    }
  }

  /** A block whose second line has no "B. " yields nothing: the B entry indexes `[1]` of a one-piece split. */
  lemma NoBMarkerYieldsNothing(block: string)
    requires |Split(block, LineSeparator)| >= 2
    requires !Contains(Split(block, LineSeparator)[1], "B. ")
    ensures ParseBlock(block) == None
  {
    EntryFailsWithoutMarker(Split(block, LineSeparator)[1], "C. ", "B. ");
  }

  /** A block whose second line has no "C. " yields nothing. */
  lemma NoCMarkerYieldsNothing(block: string)
    requires |Split(block, LineSeparator)| >= 2
    requires !Contains(Split(block, LineSeparator)[1], "C. ")
    ensures ParseBlock(block) == None
  {
    EntryFailsWithoutMarker(Split(block, LineSeparator)[1], "D. ", "C. ");
  }

  /** A block whose second line has no "D. " yields nothing. */
  lemma NoDMarkerYieldsNothing(block: string)
    requires |Split(block, LineSeparator)| >= 2
    requires !Contains(Split(block, LineSeparator)[1], "D. ")
    ensures ParseBlock(block) == None
  {
    var line := Split(block, LineSeparator)[1];
    if Contains(Strip(line), "D. ") {
      ContainsStrip(line, "D. ");
    }
  }

  // ---------------------------------------------------------------------
  // Where the fields of a record come from

  /** Line `j` is the first line holding "Answer:". */
  predicate FirstMarked(parts: seq<string>, j: int) {
    && 0 <= j < |parts|
    && Contains(parts[j], AnswerMarker)
    && forall k :: 0 <= k < j ==> !Contains(parts[k], AnswerMarker)
  }

  lemma {:induction false} AnswerLinesStartAtFirstMarked(parts: seq<string>, j: int)
    requires FirstMarked(parts, j)
    ensures AnswerLines(parts) != [] && AnswerLines(parts)[0] == parts[j]
    decreases |parts|
  {
    if j > 0 {
      assert FirstMarked(parts[1..], j - 1);
      AnswerLinesStartAtFirstMarked(parts[1..], j - 1);
    }
  }

  lemma {:induction false} SomeLineFirstMarked(parts: seq<string>)
    requires AnswerLines(parts) != []
    ensures exists j :: FirstMarked(parts, j)
    decreases |parts|
  {
    if !Contains(parts[0], AnswerMarker) {
      SomeLineFirstMarked(parts[1..]);
      var j :| FirstMarked(parts[1..], j);
      assert FirstMarked(parts, j + 1);
    } else {
      assert FirstMarked(parts, 0);
    }
  }

  /**
   * The answer is taken from the first line holding "Answer:": it is the
   * stripped text after that marker, up to the next marker or the line's end.
   */
  lemma AnswerFromFirstMarkedLine(parts: seq<string>, j: int)
    requires FirstMarked(parts, j)
    ensures var ps := Split(parts[j], AnswerMarker);
      var upTo := ps[0] + AnswerMarker + ps[1];
      && upTo <= parts[j]
      && !Contains(ps[0], AnswerMarker)
      && !Contains(ps[1], AnswerMarker)
      && (upTo == parts[j] || AnswerMarker <= parts[j][|upTo|..])
      && AnswerText(parts) == Some(Strip(ps[1]))
  {
    AnswerLinesStartAtFirstMarked(parts, j);
    SplitSecondPiece(parts[j], AnswerMarker);
  }

  /**
   * A record's text is the stripped first line, its options come from the
   * second line alone, and its answer from the first line holding "Answer:".
   */
  lemma RecordFields(block: string, rec: Record)
    requires ParseBlock(block) == Some(rec)
    ensures var parts := Split(block, LineSeparator);
      && |parts| >= 2
      && rec.text == Strip(parts[0])
      && Some(rec.options) == ExtractOptions(parts[1])
      && exists j :: FirstMarked(parts, j) && rec.answer == Strip(Split(parts[j], AnswerMarker)[1])
  {
    LinesRecordFields(Split(block, LineSeparator), rec);
  }

  lemma LinesRecordFields(parts: seq<string>, rec: Record)
    requires parts != []
    requires ParseLines(parts) == Some(rec)
    ensures |parts| >= 2
    ensures rec.text == Strip(parts[0])
    ensures Some(rec.options) == ExtractOptions(parts[1])
    ensures exists j :: FirstMarked(parts, j) && rec.answer == Strip(Split(parts[j], AnswerMarker)[1])
  {
    assert AnswerText(parts) == Some(rec.answer);
    SomeLineFirstMarked(parts);
    var j :| FirstMarked(parts, j);
    AnswerFromFirstMarkedLine(parts, j);
  }

  /**
   * The converse of `LinesRecordFields`: a second line whose entries all
   * succeed and an answer that is one of the keys give a record.
   */
  lemma LinesYieldRecord(parts: seq<string>, options: map<string, string>, answer: string)
    requires |parts| >= 2
    requires ExtractOptions(parts[1]) == Some(options)
    requires AnswerText(parts) == Some(answer)
    requires answer in options
    ensures ParseLines(parts) == Some(Record(Strip(parts[0]), options, answer))
  {
  }

  /** The split of a block at its first line break. */
  lemma SplitAtFirstLine(q: string, rest: string)
    requires !Contains(q, LineSeparator)
    ensures Split(q + LineSeparator + rest, LineSeparator) == [q] + Split(rest, LineSeparator)
  {
    FindSingleAfter(q, LineSeparator);
    FindAfterPrefix(q, LineSeparator, rest);
    SplitFirst(q, LineSeparator, rest);
  }

  /** Replacing the first line by another free of "Answer:" changes only the record's text. */
  lemma FirstLineOnlyGivesText(q: string, q': string, tail: seq<string>)
    requires !Contains(q, AnswerMarker) && !Contains(q', AnswerMarker)
    requires ParseLines([q] + tail).Some?
    ensures ParseLines([q'] + tail) == Some(ParseLines([q] + tail).value.(text := Strip(q')))
  {
    AnswerTextSkipsLine(q, tail);
    AnswerTextSkipsLine(q', tail);
    ParseLinesSameFields([q] + tail, [q'] + tail);
  }

  /** A first line without "Answer:" plays no part in finding the answer. */
  lemma AnswerTextSkipsLine(q: string, tail: seq<string>)
    requires !Contains(q, AnswerMarker)
    ensures AnswerText([q] + tail) == AnswerText(tail)
  {
    assert ([q] + tail)[1..] == tail;
    assert AnswerLines([q] + tail) == AnswerLines(tail);
  }

  /** Two line lists sharing the options line and the answer differ only in the question text. */
  lemma ParseLinesSameFields(p: seq<string>, p': seq<string>)
    requires p != [] && p' != [] && |p| == |p'|
    requires p[1..] == p'[1..]
    requires AnswerText(p) == AnswerText(p')
    requires ParseLines(p).Some?
    ensures ParseLines(p') == Some(ParseLines(p).value.(text := Strip(p'[0])))
  {
    assert p[1] == p'[1];
  }

  /**
   * The first line is not checked: any other first line (free of line breaks
   * and of "Answer:") gives the same record with that line, stripped, as its text.
   */
  lemma FirstLineNotValidated(q: string, q': string, rest: string)
    requires !Contains(q, LineSeparator) && !Contains(q', LineSeparator)
    requires !Contains(q, AnswerMarker) && !Contains(q', AnswerMarker)
    requires ParseBlock(q + LineSeparator + rest).Some?
    ensures ParseBlock(q' + LineSeparator + rest)
         == Some(ParseBlock(q + LineSeparator + rest).value.(text := Strip(q')))
  {
    SplitAtFirstLine(q, rest);
    SplitAtFirstLine(q', rest);
    FirstLineOnlyGivesText(q, q', Split(rest, LineSeparator));
  }

  // ---------------------------------------------------------------------
  // The reply as a whole: order, count, and blocks that the split keeps intact

  /** What each block's `try` gives: a record or `None`. */
  function Outcomes(blocks: seq<string>): (r: seq<Option<Record>>)
    ensures |r| == |blocks|
    ensures forall j :: 0 <= j < |blocks| ==> r[j] == ParseBlock(blocks[j])
  {
    if blocks == [] then []
    else Outcomes(blocks[..|blocks| - 1]) + [ParseBlock(blocks[|blocks| - 1])]
  }

  /**
   * `r` is what a filter over the block outcomes `res` keeps: `o` lists, in
   * increasing order, exactly the indices of the blocks that yield a record,
   * and `r[k]` is the record of block `o[k]`.
   */
  ghost predicate SelectedInOrder(r: seq<Record>, res: seq<Option<Record>>, o: seq<nat>) {
    && |o| == |r|
    && (forall k :: 0 <= k < |o| ==> o[k] < |res| && res[o[k]] == Some(r[k]))
    && (forall k, l :: 0 <= k < l < |o| ==> o[k] < o[l])
    && (forall j :: 0 <= j < |res| && res[j].Some? ==> j in o)
  }

  lemma ExtendDropped(r: seq<Record>, res: seq<Option<Record>>, o: seq<nat>)
    requires SelectedInOrder(r, res, o)
    ensures SelectedInOrder(r, res + [None], o)
  {
    var res' := res + [None];
    assert forall j :: 0 <= j < |res| ==> res'[j] == res[j];
  }

  lemma ExtendKept(r: seq<Record>, res: seq<Option<Record>>, o: seq<nat>, rec: Record)
    requires SelectedInOrder(r, res, o)
    ensures SelectedInOrder(r + [rec], res + [Some(rec)], o + [|res|])
  {
    var res' := res + [Some(rec)];
    assert forall j :: 0 <= j < |res| ==> res'[j] == res[j];
    var o' := o + [|res|];
    assert forall k :: 0 <= k < |o| ==> o'[k] == o[k];
    assert forall j :: 0 <= j < |res| && j in o ==> j in o';
  }

  /** The records are those of the blocks that parse, in block order, each block at most once. */
  lemma {:induction false} ParseBlocksInOrder(blocks: seq<string>)
    ensures exists o :: SelectedInOrder(ParseBlocks(blocks), Outcomes(blocks), o)
    decreases |blocks|
  {
    if blocks == [] {
      assert ParseBlocks(blocks) == [] && Outcomes(blocks) == [];
      assert SelectedInOrder(ParseBlocks(blocks), Outcomes(blocks), []);
    } else {
      var n := |blocks| - 1;
      var init := blocks[..n];
      ParseBlocksInOrder(init);
      var o: seq<nat> :| SelectedInOrder(ParseBlocks(init), Outcomes(init), o);
      var outcome := ParseBlock(blocks[n]);
      assert Outcomes(blocks) == Outcomes(init) + [outcome];
      if outcome.Some? {
        assert ParseBlocks(blocks) == ParseBlocks(init) + [outcome.value];
        ExtendKept(ParseBlocks(init), Outcomes(init), o, outcome.value);
        assert SelectedInOrder(ParseBlocks(blocks), Outcomes(blocks), o + [n]);
      } else {
        assert ParseBlocks(blocks) == ParseBlocks(init);
        ExtendDropped(ParseBlocks(init), Outcomes(init), o);
        assert SelectedInOrder(ParseBlocks(blocks), Outcomes(blocks), o);
      }
    }
  }

  /** When no block yields a record, the reply yields none. */
  lemma {:induction false} AllDroppedYieldsNothing(blocks: seq<string>)
    requires forall k :: 0 <= k < |blocks| ==> ParseBlock(blocks[k]).None?
    ensures ParseBlocks(blocks) == []
    decreases |blocks|
  {
    if blocks != [] {
      AllDroppedYieldsNothing(blocks[..|blocks| - 1]);
    }
  }

  /** A block the reply can carry intact: no blank line inside, no line break at its end. */
  predicate CleanBlock(b: string) {
    !Contains(b, BlockSeparator) && (b == [] || b[|b| - 1] != '\n')
  }

  lemma CleanBlockSeparates(b: string)
    requires CleanBlock(b)
    ensures Find(b + BlockSeparator, BlockSeparator) == Some(|b|)
  {
    var s := b + BlockSeparator;
    FindSpec(b, BlockSeparator);
    forall j | 0 <= j < |b| ensures !OccursAt(s, BlockSeparator, j) {
      NoBlankLineAt(b, j);
    }
    assert s[|b|..|b| + 2] == BlockSeparator;
    FindIs(s, BlockSeparator, |b|);
  }

  lemma NoBlankLineAt(b: string, j: nat)
    requires CleanBlock(b)
    requires j < |b|
    requires forall i :: !OccursAt(b, BlockSeparator, i)
    ensures !OccursAt(b + BlockSeparator, BlockSeparator, j)
  {
    var s := b + BlockSeparator;
    if j + 2 <= |b| {
      assert s[j..j + 2] == b[j..j + 2];
      assert !OccursAt(b, BlockSeparator, j);
    } else {
      assert s[j..j + 2][0] == s[j] == b[|b| - 1];
    }
  }

  /**
   * Blocks joined with blank lines are split back into the same blocks, so the
   * reply yields exactly the records of its blocks, in order.
   */
  lemma ParseJoinedBlocks(blocks: seq<string>)
    requires blocks != []
    requires forall k :: 0 <= k < |blocks| - 1 ==> CleanBlock(blocks[k])
    requires !Contains(blocks[|blocks| - 1], BlockSeparator)
    ensures ParseQuiz(Join(blocks, BlockSeparator)) == ParseBlocks(blocks)
  {
    forall k | 0 <= k < |blocks| - 1
      ensures Find(blocks[k] + BlockSeparator, BlockSeparator) == Some(|blocks[k]|)
    {
      CleanBlockSeparates(blocks[k]);
    }
    SplitOfJoin(blocks, BlockSeparator);
  }

  /** Two blocks, the second without an "Answer:" line: only the first block's record is returned. */
  lemma SecondBlockWithoutAnswerDropped(b1: string, b2: string)
    requires CleanBlock(b1) && !Contains(b2, BlockSeparator)
    requires ParseBlock(b1).Some?
    requires !Contains(b2, AnswerMarker)
    ensures ParseQuiz(b1 + BlockSeparator + b2) == [ParseBlock(b1).value]
  {
    var blocks := [b1, b2];
    assert blocks[1..] == [b2];
    assert Join(blocks, BlockSeparator) == b1 + BlockSeparator + b2;
    ParseJoinedBlocks(blocks);
    NoAnswerLineYieldsNothing(b2);
    assert blocks[..1] == [b1];
    assert [b1][..0] == [];
  }

  // ---------------------------------------------------------------------
  // The layout the prompt asks for

  /** One question as the prompt lays it out: a question line, four option lines, an answer line. */
  datatype LayoutQuestion = LayoutQuestion(question: string, a: string, b: string, c: string, d: string, answer: string)

  function LayoutLines(lq: LayoutQuestion): seq<string> {
    [lq.question, "A. " + lq.a, "B. " + lq.b, "C. " + lq.c, "D. " + lq.d, "Answer: " + lq.answer]
  }

  function LayoutBlock(lq: LayoutQuestion): string {
    Join(LayoutLines(lq), LineSeparator)
  }

  /** A reply made of such blocks separated by blank lines. */
  function LayoutReply(qs: seq<LayoutQuestion>): string {
    Join(seq(|qs|, k requires 0 <= k < |qs| => LayoutBlock(qs[k])), BlockSeparator)
  }

  /** No field holds a line break, and option A's text holds no "B. ". */
  predicate PlainFields(lq: LayoutQuestion) {
    && !Contains(lq.question, LineSeparator)
    && !Contains(lq.a, LineSeparator)
    && !Contains(lq.b, LineSeparator)
    && !Contains(lq.c, LineSeparator)
    && !Contains(lq.d, LineSeparator)
    && !Contains(lq.answer, LineSeparator)
    && !Contains(lq.a, "B. ")
  }

  lemma LayoutLinesPlain(lq: LayoutQuestion)
    requires PlainFields(lq)
    ensures forall k :: 0 <= k < 6 ==> !Contains(LayoutLines(lq)[k], LineSeparator)
    ensures forall k :: 1 <= k < 6 ==> LayoutLines(lq)[k] != []
  {
    NoMatchAfterPrefix("A. ", lq.a, LineSeparator);
    NoMatchAfterPrefix("B. ", lq.b, LineSeparator);
    NoMatchAfterPrefix("C. ", lq.c, LineSeparator);
    NoMatchAfterPrefix("D. ", lq.d, LineSeparator);
    NoMatchAfterPrefix("Answer: ", lq.answer, LineSeparator);
  }

  /** Lines free of line breaks are split back into themselves. */
  lemma SplitOfLines(lines: seq<string>)
    requires lines != []
    requires forall k :: 0 <= k < |lines| ==> !Contains(lines[k], LineSeparator)
    ensures Split(Join(lines, LineSeparator), LineSeparator) == lines
  {
    forall k | 0 <= k < |lines| - 1
      ensures Find(lines[k] + LineSeparator, LineSeparator) == Some(|lines[k]|)
    {
      FindSingleAfter(lines[k], LineSeparator);
    }
    SplitOfJoin(lines, LineSeparator);
  }

  /** Three lines without a newline, joined by newlines, split back into those three lines. */
  lemma SplitOfThreeLines(a: string, b: string, c: string)
    requires !Contains(a, LineSeparator) && !Contains(b, LineSeparator) && !Contains(c, LineSeparator)
    ensures Split(a + LineSeparator + b + LineSeparator + c, LineSeparator) == [a, b, c]
  {
    JoinThree(a, b, c, LineSeparator);
    SplitOfLines([a, b, c]);
  }

  /** A block of three plain lines whose entries and answer all succeed gives a record. */
  lemma ThreeLinesYieldRecord(q: string, line: string, last: string, options: map<string, string>, answer: string)
    requires !Contains(q, LineSeparator) && !Contains(line, LineSeparator) && !Contains(last, LineSeparator)
    requires ExtractOptions(line) == Some(options)
    requires AnswerText([q, line, last]) == Some(answer)
    requires answer in options
    ensures ParseBlock(q + LineSeparator + line + LineSeparator + last) == Some(Record(Strip(q), options, answer))
  {
    SplitOfThreeLines(q, line, last);
    LinesYieldRecord([q, line, last], options, answer);
  }

  /**
   * A block in exactly the layout the prompt asks for yields no record: its
   * second line is option A alone, so the B entry finds no "B. " to split on.
   */
  lemma LayoutBlockYieldsNothing(lq: LayoutQuestion)
    requires PlainFields(lq)
    ensures ParseBlock(LayoutBlock(lq)) == None
  {
    LayoutLinesPlain(lq);
    SplitOfLines(LayoutLines(lq));
    NoMatchAfterPrefix("A. ", lq.a, "B. ");
    NoBMarkerYieldsNothing(LayoutBlock(lq));
  }

  /** No two consecutive line breaks, and no line break at the end. */
  predicate NoBlankLine(x: string) {
    && (forall i :: 0 <= i < |x| - 1 ==> !(x[i] == '\n' && x[i + 1] == '\n'))
    && (x == [] || x[|x| - 1] != '\n')
  }

  lemma NoBlankLineIsClean(x: string)
    requires NoBlankLine(x)
    ensures CleanBlock(x)
  {
    forall j | 0 <= j && j + 2 <= |x| ensures !OccursAt(x, BlockSeparator, j) {
      assert x[j..j + 2][0] == x[j] && x[j..j + 2][1] == x[j + 1];
    }
    FindSpec(x, BlockSeparator);
  }

  /** Lines without line breaks, all but the first non-empty, join into a block without a blank line. */
  lemma {:induction false} JoinLinesNoBlankLine(ls: seq<string>)
    requires ls != []
    requires forall k :: 0 <= k < |ls| ==> !Contains(ls[k], LineSeparator)
    requires forall k :: 1 <= k < |ls| ==> ls[k] != []
    ensures NoBlankLine(Join(ls, LineSeparator))
    decreases |ls|
  {
    NoCharAnywhere(ls[0], '\n');
    if |ls| > 1 {
      var a := ls[0];
      var rest := Join(ls[1..], LineSeparator);
      JoinLinesNoBlankLine(ls[1..]);
      NoCharAnywhere(ls[1], '\n');
      assert rest != [] && rest[0] == ls[1][0] by {
        if |ls| > 2 {
          assert rest == ls[1] + LineSeparator + Join(ls[2..], LineSeparator) by {
            assert ls[1..][1..] == ls[2..];
          }
        }
      }
      var x := a + LineSeparator + rest;
      assert Join(ls, LineSeparator) == x;
      forall i | 0 <= i < |x| - 1 ensures !(x[i] == '\n' && x[i + 1] == '\n') {
        if i > |a| {
          assert x[i] == rest[i - |a| - 1] && x[i + 1] == rest[i - |a|];
        }
      }
    }
  }

  /**
   * A whole reply in exactly the format the prompt asks for yields an empty
   * list, however many questions it holds.
   */
  lemma LayoutReplyYieldsNothing(qs: seq<LayoutQuestion>)
    requires forall k :: 0 <= k < |qs| ==> PlainFields(qs[k])
    ensures ParseQuiz(LayoutReply(qs)) == []
  {
    if qs == [] {
      EmptyReplyYieldsNothing();
    } else {
      var blocks := seq(|qs|, k requires 0 <= k < |qs| => LayoutBlock(qs[k]));
      forall k | 0 <= k < |blocks|
        ensures CleanBlock(blocks[k]) && ParseBlock(blocks[k]).None?
      {
        LayoutLinesPlain(qs[k]);
        JoinLinesNoBlankLine(LayoutLines(qs[k]));
        NoBlankLineIsClean(blocks[k]);
        LayoutBlockYieldsNothing(qs[k]);
      }
      ParseJoinedBlocks(blocks);
      AllDroppedYieldsNothing(blocks);
    }
  }

  // ---------------------------------------------------------------------
  // All four options on one line

  /** The second line with all four options on it: "A. a B. b C. c D. d". */
  function OneLine(a: string, b: string, c: string, d: string): string {
    "A. " + a + " B. " + b + " C. " + c + " D. " + d
  }

  /** A text with no full stop, so it holds no marker and cannot help `replace` make one. */
  predicate NoDot(s: string) {
    forall k :: 0 <= k < |s| ==> s[k] != '.'
  }

  /** "A. " followed by a dot-free text and a space never has a full stop after `x`, unless `x` is 'A'. */
  lemma LabelledPairFree(a: string, x: char)
    requires NoDot(a) && x != 'A'
    ensures PairFree("A. " + a + " ", x, '.')
  {
    assert PairFree("A. ", x, '.') by {
      assert !PairAt("A. ", 0, x, '.') && !PairAt("A. ", 1, x, '.');
    }
    LacksCharPairFree(a, x, '.');
    PairFreeAppend("A. ", a, x, '.');
    LacksCharPairFree(" ", x, '.');
    PairFreeAppend("A. " + a, " ", x, '.');
  }

  /** A dot-free text followed by a space never has a full stop after `x`. */
  lemma SpacedPairFree(b: string, x: char)
    requires NoDot(b)
    ensures PairFree(b + " ", x, '.')
  {
    assert NoDot(b + " ");
    LacksCharPairFree(b + " ", x, '.');
  }

  lemma OneLineParts(a: string, b: string, c: string, d: string)
    ensures OneLine(a, b, c, d) == ("A. " + a + " ") + "B. " + (b + " ") + ("C. " + c + " D. " + d)
  {
    assert " B. " == " " + "B. " && " C. " == " " + "C. ";
  }

  /** With dot-free A and B texts, the B entry cuts the line just before "C. ". */
  lemma OneLineCut(a: string, b: string, c: string, d: string)
    requires NoDot(a) && NoDot(b)
    ensures Split(OneLine(a, b, c, d), "C. ")[0] == ("A. " + a + " ") + "B. " + (b + " ")
  {
    var u := "A. " + a + " ";
    var v := b + " ";
    var cut := u + "B. " + v;
    var tail := "C. " + c + " D. " + d;
    var line := OneLine(a, b, c, d);
    OneLineParts(a, b, c, d);
    assert line == cut + tail;
    LabelledPairFree(a, 'C');
    assert PairFree("B. ", 'C', '.') by {
      assert !PairAt("B. ", 0, 'C', '.') && !PairAt("B. ", 1, 'C', '.');
    }
    PairFreeAppend(u, "B. ", 'C', '.');
    SpacedPairFree(b, 'C');
    PairFreeAppend(u + "B. ", v, 'C', '.');
    PairFreePrefix(cut, tail, 'C', '.');
    assert line[|cut|..|cut| + 3] == "C. ";
    FindByPair(line, "C. ", |cut|);
    SplitFirstPiece(line, "C. ", |cut|);
    assert line[..|cut|] == cut;
  }

  /** Removing "B. " from that cut leaves the A text and the B text side by side, with no "B. ". */
  lemma OneLineCutReplaced(a: string, b: string)
    requires NoDot(a) && NoDot(b)
    ensures !Contains(Replace(("A. " + a + " ") + "B. " + (b + " "), "B. ", ""), "B. ")
  {
    var u := "A. " + a + " ";
    var v := b + " ";
    var cut := u + "B. " + v;
    assert cut == u + ("B. " + v);
    LabelledPairFree(a, 'B');
    PairFreePrefix(u, "B. " + v, 'B', '.');
    assert cut[|u|..|u| + 3] == "B. ";
    FindByPair(cut, "B. ", |u|);
    SpacedPairFree(b, 'B');
    assert cut[|u| + 3..] == v;
    AbsentByPair(v, "B. ");
    ReplaceOnce(cut, "B. ", |u|);
    assert cut[..|u|] == u;
    PairFreeAppend(u, v, 'B', '.');
    AbsentByPair(u + v, "B. ");
  }

  /**
   * On the one-line form with dot-free A and B texts, the B entry raises:
   * `replace` removes the only "B. " and creates none.
   */
  lemma OneLineOptionBFails(a: string, b: string, c: string, d: string)
    requires NoDot(a) && NoDot(b)
    ensures OptionB(OneLine(a, b, c, d)) == None
  {
    OneLineCut(a, b, c, d);
    OneLineCutReplaced(a, b);
  }

  /** So a block whose second line is such a one-line form yields no record. */
  lemma OneLineBlockYieldsNothing(block: string, a: string, b: string, c: string, d: string)
    requires NoDot(a) && NoDot(b)
    requires |Split(block, LineSeparator)| >= 2
    requires Split(block, LineSeparator)[1] == OneLine(a, b, c, d)
    ensures ParseBlock(block) == None
  {
    OneLineOptionBFails(a, b, c, d);
  }

  /**
   * On a line that starts "A. " + a + " B. ", with no other "A. " or "B. " in
   * `a + " "`, option A is the text between the labels, stripped.
   */
  lemma OptionAUpToB(a: string, rest: string)
    requires !Contains(a + " ", "A. ") && !Contains(a + " ", "B. ")
    ensures OptionA("A. " + a + " B. " + rest) == Strip(a)
  {
    var x := "A. " + a + " ";
    var line := "A. " + a + " B. " + rest;
    assert line == x + "B. " + rest by {
      assert " B. " == " " + "B. ";
    }
    assert x == "A. " + (a + " ");
    NoMatchAfterPrefix("A. ", a + " ", "B. ");
    MarkerAfterSpace(x, "B. ");
    FindAfterPrefix(x, "B. ", rest);
    SplitFirstPiece(line, "B. ", |x|);
    assert line[..|x|] == x;
    assert x[0..3] == "A. ";
    FindIs(x, "A. ", 0);
    assert x[3..] == a + " ";
    ReplaceOnce(x, "A. ", 0);
    assert x[..0] + x[3..] == a + " ";
    StripAppendSpace(a);
  }

  // ---------------------------------------------------------------------
  // A block that does yield a record

  /*
   * The option entries succeed only where `replace` leaves a fresh marker
   * behind. On the second line below, cutting at "C. " leaves "A. a BB. . b C";
   * removing "B. " from it gives "A. a B. b C", whose piece after "B. " is
   * "b C". Option C is found the same way, and option A keeps the "B" that
   * precedes the first "B. ".
   */
  const SampleQuestion: string := "Q1"
  const SampleOptions: string := "A. a BB. . b CC. . c D. d"
  const SampleAnswerLine: string := "Answer: A"
  /** The block "Q1\nA. a BB. . b CC. . c D. d\nAnswer: A". */
  const SampleBlock: string :=
    SampleQuestion + LineSeparator + SampleOptions + LineSeparator + SampleAnswerLine

  /** The record `SampleBlock` yields. */
  const SampleRecord: Record :=
    Record("Q1", map["A" := "a B", "B" := "b C", "C" := "c", "D" := "d"], "A")

  // Where the markers first occur in the strings the sample passes through.

  lemma SampleFindBInLine()
    ensures Find(SampleOptions, "B. ") == Some(6)
  {
    var l := SampleOptions;
    assert OccursAt(l, "B. ", 6) by { assert l[6..9] == "B. "; }
    FindByPair(l, "B. ", 6);
  }

  lemma SampleFindCInLine()
    ensures Find(SampleOptions, "C. ") == Some(14)
  {
    var l := SampleOptions;
    assert OccursAt(l, "C. ", 14) by { assert l[14..17] == "C. "; }
    FindByPair(l, "C. ", 14);
  }

  lemma SampleFindDInLine()
    ensures Find(SampleOptions, "D. ") == Some(21)
  {
    var l := SampleOptions;
    assert OccursAt(l, "D. ", 21) by { assert l[21..24] == "D. "; }
    FindByPair(l, "D. ", 21);
  }

  lemma SampleFindAInCut()
    ensures Find("A. a B", "A. ") == Some(0)
  {
    var x := "A. a B";
    assert OccursAt(x, "A. ", 0) by { assert x[0..3] == "A. "; }
    FindIs(x, "A. ", 0);
  }

  lemma SampleFindBInCut()
    ensures Find("A. a BB. . b C", "B. ") == Some(6)
  {
    var x := "A. a BB. . b C";
    assert OccursAt(x, "B. ", 6) by { assert x[6..9] == "B. "; }
    FindByPair(x, "B. ", 6);
  }

  lemma SampleFindCInCut()
    ensures Find("A. a BB. . b CC. . c ", "C. ") == Some(14)
  {
    var x := "A. a BB. . b CC. . c ";
    assert OccursAt(x, "C. ", 14) by { assert x[14..17] == "C. "; }
    FindByPair(x, "C. ", 14);
  }

  lemma SampleFindBInEntry()
    ensures Find("A. a B. b C", "B. ") == Some(5)
  {
    var y := "A. a B. b C";
    assert OccursAt(y, "B. ", 5) by { assert y[5..8] == "B. "; }
    FindByPair(y, "B. ", 5);
  }

  lemma SampleFindCInEntry()
    ensures Find("A. a BB. . b C. c", "C. ") == Some(13)
  {
    var z := "A. a BB. . b C. c";
    assert OccursAt(z, "C. ", 13) by { assert z[13..16] == "C. "; }
    FindByPair(z, "C. ", 13);
  }

  lemma SampleFindAnswer()
    ensures Find(SampleAnswerLine, AnswerMarker) == Some(0)
  {
    var m := SampleAnswerLine;
    assert OccursAt(m, AnswerMarker, 0) by { assert m[0..7] == AnswerMarker; }
    FindIs(m, AnswerMarker, 0);
  }

  // The entries, one step of each Python expression at a time.

  lemma SampleCutAtB()
    ensures Split(SampleOptions, "B. ")[0] == "A. a B"
  {
    SampleFindBInLine();
    SplitFirstPiece(SampleOptions, "B. ", 6);
    var l := SampleOptions;
    assert l[..6] == "A. a B";
  }

  lemma SampleCutAtC()
    ensures Split(SampleOptions, "C. ")[0] == "A. a BB. . b C"
  {
    SampleFindCInLine();
    SplitFirstPiece(SampleOptions, "C. ", 14);
    var l := SampleOptions;
    assert l[..14] == "A. a BB. . b C";
  }

  lemma SampleCutAtD()
    ensures Split(SampleOptions, "D. ")[0] == "A. a BB. . b CC. . c "
  {
    SampleFindDInLine();
    SplitFirstPiece(SampleOptions, "D. ", 21);
    var l := SampleOptions;
    assert l[..21] == "A. a BB. . b CC. . c ";
  }

  lemma SampleSlicesA()
    ensures "A. a B"[..0] + "A. a B"[3..] == "a B"
  {
  }

  lemma SampleSlicesB()
    ensures "A. a BB. . b C"[9..] == ". b C"
    ensures "A. a BB. . b C"[..6] + "A. a BB. . b C"[9..] == "A. a B. b C"
  {
  }

  lemma SampleSlicesC()
    ensures "A. a BB. . b CC. . c "[17..] == ". c "
    ensures "A. a BB. . b CC. . c "[..14] + "A. a BB. . b CC. . c "[17..] == "A. a BB. . b C. c "
  {
  }

  lemma SampleRemoveA()
    ensures Replace("A. a B", "A. ", "") == "a B"
  {
    SampleFindAInCut();
    SampleSlicesA();
    assert "A. a B"[3..] == "a B";
    AbsentByPair("a B", "A. ");
    ReplaceOnce("A. a B", "A. ", 0);
  }

  lemma SampleRemoveB()
    ensures Replace("A. a BB. . b C", "B. ", "") == "A. a B. b C"
  {
    SampleFindBInCut();
    SampleSlicesB();
    AbsentByPair(". b C", "B. ");
    ReplaceOnce("A. a BB. . b C", "B. ", 6);
  }

  lemma SampleRemoveC()
    ensures Replace("A. a BB. . b CC. . c ", "C. ", "") == "A. a BB. . b C. c "
  {
    SampleFindCInCut();
    SampleSlicesC();
    AbsentByPair(". c ", "C. ");
    ReplaceOnce("A. a BB. . b CC. . c ", "C. ", 14);
  }

  lemma SampleStripC()
    ensures Strip("A. a BB. . b C. c ") == "A. a BB. . b C. c"
  {
    StripSurrounded("", "A. a BB. . b C. c", " ");
    assert "" + "A. a BB. . b C. c" + " " == "A. a BB. . b C. c ";
  }

  lemma SamplePieceB()
    ensures Index(Split("A. a B. b C", "B. "), 1) == Some("b C")
  {
    SampleFindBInEntry();
    assert "A. a B. b C"[8..] == "b C";
    AbsentByPair("b C", "B. ");
    SecondPieceOfTwo("A. a B. b C", "B. ", 5);
  }

  lemma SamplePieceC()
    ensures Index(Split("A. a BB. . b C. c", "C. "), 1) == Some("c")
  {
    SampleFindCInEntry();
    assert "A. a BB. . b C. c"[16..] == "c";
    AbsentByPair("c", "C. ");
    SecondPieceOfTwo("A. a BB. . b C. c", "C. ", 13);
  }

  lemma SamplePieceD()
    ensures Index(Split(SampleOptions, "D. "), 1) == Some("d")
  {
    SampleFindDInLine();
    var l := SampleOptions;
    assert l[24..] == "d";
    AbsentByPair("d", "D. ");
    SecondPieceOfTwo(SampleOptions, "D. ", 21);
  }

  lemma SampleOptionA()
    ensures OptionA(SampleOptions) == "a B"
  {
    SampleCutAtB();
    SampleRemoveA();
    StripPlain("a B");
  }

  lemma SampleOptionB()
    ensures OptionB(SampleOptions) == Some("b C")
  {
    SampleCutAtC();
    SampleRemoveB();
    StripPlain("A. a B. b C");
    SamplePieceB();
  }

  lemma SampleOptionC()
    ensures OptionC(SampleOptions) == Some("c")
  {
    SampleCutAtD();
    SampleRemoveC();
    SampleStripC();
    SamplePieceC();
  }

  lemma SampleOptionD()
    ensures OptionD(SampleOptions) == Some("d")
  {
    StripPlain(SampleOptions);
    SamplePieceD();
  }

  // The lines and the answer.

  lemma SampleQuestionPlain()
    ensures !Contains(SampleQuestion, LineSeparator)
  {
    AbsentChar(SampleQuestion, '\n');
  }

  lemma SampleOptionsPlain()
    ensures !Contains(SampleOptions, LineSeparator)
  {
    AbsentChar(SampleOptions, '\n');
  }

  lemma SampleAnswerLinePlain()
    ensures !Contains(SampleAnswerLine, LineSeparator)
  {
    AbsentChar(SampleAnswerLine, '\n');
  }

  lemma SampleQuestionUnmarked()
    ensures !Contains(SampleQuestion, AnswerMarker)
  {
    AbsentByPair(SampleQuestion, AnswerMarker);
  }

  lemma SampleOptionsUnmarked()
    ensures !Contains(SampleOptions, AnswerMarker)
  {
    AbsentByPair(SampleOptions, AnswerMarker);
  }

  /** Three lines of which only the last holds "Answer:" leave that line alone in the comprehension. */
  lemma AnswerLinesOfThree(a: string, b: string, c: string)
    requires !Contains(a, AnswerMarker) && !Contains(b, AnswerMarker) && Contains(c, AnswerMarker)
    ensures AnswerLines([a, b, c]) == [c]
  {
    var parts := [a, b, c];
    assert AnswerLines(parts[2..]) == [c] by {
      assert parts[2..] == [c] && [c][1..] == [];
    }
    assert parts[1..][1..] == parts[2..];
  }

  lemma SampleAnswerLines()
    ensures AnswerLines([SampleQuestion, SampleOptions, SampleAnswerLine]) == [SampleAnswerLine]
  {
    SampleQuestionUnmarked();
    SampleOptionsUnmarked();
    SampleFindAnswer();
    AnswerLinesOfThree(SampleQuestion, SampleOptions, SampleAnswerLine);
  }

  lemma SampleAfterMarker()
    ensures Index(Split(SampleAnswerLine, AnswerMarker), 1) == Some(" A")
  {
    SampleFindAnswer();
    var m := SampleAnswerLine;
    assert m[7..] == " A";
    AbsentByPair(" A", AnswerMarker);
    SecondPieceOfTwo(SampleAnswerLine, AnswerMarker, 0);
  }

  lemma SampleAnswer()
    ensures AnswerText([SampleQuestion, SampleOptions, SampleAnswerLine]) == Some("A")
  {
    SampleAnswerLines();
    SampleAfterMarker();
    SampleStripAnswer();
  }

  lemma SampleStripAnswer()
    ensures Strip(" A") == "A"
  {
    StripSurrounded(" ", "A", "");
    assert " " + "A" + "" == " A";
  }

  lemma SampleOptionsMap()
    ensures ExtractOptions(SampleOptions) == Some(SampleRecord.options)
  {
    SampleOptionA();
    SampleOptionB();
    SampleOptionC();
    SampleOptionD();
  }

  lemma SampleBlockParts()
    ensures ParseBlock(SampleBlock) == Some(Record(Strip(SampleQuestion), SampleRecord.options, "A"))
  {
    SampleQuestionPlain();
    SampleOptionsPlain();
    SampleAnswerLinePlain();
    SampleOptionsMap();
    SampleAnswer();
    ThreeLinesYieldRecord(SampleQuestion, SampleOptions, SampleAnswerLine, SampleRecord.options, "A");
  }

  lemma SampleQuestionText()
    ensures Record(Strip(SampleQuestion), SampleRecord.options, "A") == SampleRecord
  {
    StripPlain(SampleQuestion);
  }

  /** The sample block, whose second line holds all four options, yields one full record. */
  lemma SampleBlockYieldsRecord()
    ensures ParseBlock(SampleBlock) == Some(SampleRecord)
  {
    SampleBlockParts();
    SampleQuestionText();
  }

  /** A reply made of the sample block alone yields exactly its record. */
  lemma SampleReplyYieldsOneRecord()
    ensures ParseQuiz(SampleBlock) == [SampleRecord]
  {
    AbsentByPair(SampleBlock, BlockSeparator);
    assert Split(SampleBlock, BlockSeparator) == [SampleBlock];
    SampleBlockYieldsRecord();
    assert [SampleBlock][..0] == [];
  }
}
