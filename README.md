# Interactive PDF Quiz — reply parser and difficulty grader

The application uploads a PDF. It asks a language model for five
multiple-choice questions and turns the model's free-text reply into quiz
records. Each record holds the question text, an option map keyed `A`–`D`
and the correct answer. A second function asks the model for a 1–5
difficulty rating and reads the reply as an integer.

This project models those two pieces of pure text processing. The model's
reply is a parameter.

- `wrappers.dfy`: the `Option` type that stands for "raised an exception".
- `py_str.dfy` (module `PyStr`): the Python string built-ins the parser is
  built from:
  - `in`, from the first occurrence of a pattern (`Find`)
  - `str.split(sep)`: non-overlapping, left to right, always at least one piece
  - `sep.join`
  - `str.replace`: its output is not rescanned, so it can create a new match
  - `str.strip()`, over the fixed code-point set of `str.isspace()`
  - list indexing, where an `IndexError` becomes `None`
- `quiz_parser.dfy` (module `QuizParser`): the parser in `generate_questions`.
  - `ParseBlock` follows one block through the `try` body, statement by
    statement. Any exception drops the block.
  - `ParseBlocks` and `ParseQuiz` give the resulting list.
  - `GenerateQuestions` is the loop itself, proved equal to `ParseQuiz`.
  - The lemmas state what the parser keeps and drops, where each field comes
    from, and that the records come out in block order.
- `difficulty.dfy` (module `Difficulty`): `grade_difficulty`'s
  `int(response.strip())`, with the sentinel string on `ValueError`.

The model follows the code as written. The option entries for `B` and `C`
cut the second line at the *next* marker (`C. `, `D. `) first. They then
remove their own marker with `replace`, and only then split on that same
marker and take piece `[1]`. `replace` removes every marker the cut holds,
so the entry succeeds only if the text `replace` returns still holds the
marker, that is, only if `replace` has created a new one out of the
surrounding characters (the contracts of `OptionB`, `OptionC` and `Entry`;
`ReplaceCanCreateMarker` shows it can happen). So on the one-line form
`"A. a B. b C. c D. d"`, with option texts `a` and `b` free of full stops,
the B entry raises and the block is skipped (`OneLineOptionBFails`,
`OneLineBlockYieldsNothing`).

The layout the prompt asks for (app.py:35-51) puts one option per line,
with a blank line between questions. Under that layout, the second line of
each block is `A. …`. As long as no field holds a line break and option A's
own text holds no `B. ` (`PlainFields`), that line contains no `B. `, so
every block raises and is skipped (`LayoutBlockYieldsNothing`,
`LayoutReplyYieldsNothing`). The prompt asks for exactly that layout; the
code yields no record from it.

A block does yield a record when all four options share its second line and
`replace` creates the markers the entries split on. The block
`"Q1\nA. a BB. . b CC. . c D. d\nAnswer: A"` gives the question "Q1", the
options A = "a B", B = "b C", C = "c", D = "d" and the answer "A"
(`SampleBlockYieldsRecord`).

`int()` also obeys CPython's default limit of 4300 digits for conversions
between `int` and `str`. A longer run of digits raises `ValueError` and is
graded as unclear (`TooManyDigitsUnclear`).

## Model

| member | source | states |
|---|---|---|
| QuizParser.OptionA | app.py:64 | a second line holding neither "A. " nor "B. " gives option A as the whole line, stripped (`OptionAUpToB` covers lines that hold "B. ") |
| QuizParser.OptionAUpToB | app.py:64 | on a line `"A. " + a + " B. " + rest`, where `a + " "` holds neither "A. " nor "B. ", option A is `a`, stripped |
| QuizParser.OptionB | app.py:65 | the B entry succeeds only when the text `replace` returns for the cut before the first "C. " still holds "B. " (a marker `replace` created), so only on a line holding "B. "; its text holds no "B. " |
| QuizParser.OptionC | app.py:66 | the C entry succeeds only when the text `replace` returns for the cut before the first "D. " still holds "C. " (a marker `replace` created), so only on a line holding "C. "; its text holds no "C. " |
| QuizParser.Entry | app.py:65-66 | the cut, replace, strip, split and `[1]` chain of the B and C entries succeeds only when the output of `replace` still holds the entry's marker, and so only when the line holds it; the text it returns holds none |
| QuizParser.OneLineCut | app.py:65 | on `"A. " + a + " B. " + b + " C. " + c + " D. " + d` with dot-free `a` and `b`, the B entry's cut before the first "C. " is `"A. " + a + " B. " + b + " "` |
| QuizParser.OneLineCutReplaced | app.py:65 | removing "B. " from that cut leaves no "B. " |
| QuizParser.OneLineOptionBFails | app.py:64-65 | on the one-line form `"A. " + a + " B. " + b + " C. " + c + " D. " + d` with dot-free `a` and `b`, the B entry raises |
| QuizParser.OneLineBlockYieldsNothing | app.py:61-65 | a block whose second line has that one-line form yields no record |
| QuizParser.OptionD | app.py:67 | the D entry succeeds only on a line holding "D. ", and its text holds no "D. " |
| QuizParser.AnswerText | app.py:69-70 | an answer exists only if some line of the block holds "Answer:", and the answer itself holds no "Answer:" |
| QuizParser.GenerateQuestions | app.py:57-76 | the loop over the blocks returns exactly `ParseQuiz(response)`, and every record it appends has the option keys {A,B,C,D} and an answer among them |
| QuizParser.ParseQuiz | app.py:58-76 | the reply is split on blank lines; the result is never longer than the list of blocks, and every record is well formed |
| QuizParser.ParseBlocks | app.py:60-74 | at most one record per block; every kept record is well formed |
| QuizParser.ParseBlock | app.py:61-74 | a block either raises (None) or yields a record whose option keys are exactly A–D and whose answer is one of them |
| QuizParser.ParseLines | app.py:62-72 | the same guarantee, stated over the block's lines |
| QuizParser.ExtractOptions | app.py:64-67 | the option dictionary is built only when the B, C and D entries all index successfully; its keys are then exactly A, B, C, D |
| QuizParser.AnswerLines | app.py:69 | the comprehension keeps only lines of the block, and only those that contain "Answer:" |
| QuizParser.ParseTwice | app.py:58-76 | parsing the same reply twice gives the same list (no hidden state) |
| QuizParser.EmptyReplyYieldsNothing | app.py:59-63 | an empty reply is one empty block, which raises at `question_parts[1]` and gives no record |
| QuizParser.SingleLineBlockYieldsNothing | app.py:62-64 | a block without a newline has no second line and is skipped |
| QuizParser.NoAnswerLineYieldsNothing | app.py:69 | a block with no "Answer:" anywhere raises at `[0]` of the empty list and is skipped |
| QuizParser.NoMarkedLine | app.py:69 | if no line contains "Answer:", the comprehension is empty |
| QuizParser.LinesLack | app.py:62 | a pattern absent from a block is absent from each of its lines |
| QuizParser.AnswerOutsideKeysDropped | app.py:71-72 | an answer that is not one of A–D is not appended |
| QuizParser.EntryFailsWithoutMarker | app.py:65-66 | if the line lacks the entry's marker, the cut-replace-strip-split chain has no piece `[1]` |
| QuizParser.NoBMarkerYieldsNothing | app.py:65 | a second line without "B. " makes the block raise |
| QuizParser.NoCMarkerYieldsNothing | app.py:66 | a second line without "C. " makes the block raise |
| QuizParser.NoDMarkerYieldsNothing | app.py:67 | a second line without "D. " makes the block raise |
| QuizParser.AnswerLinesStartAtFirstMarked | app.py:69 | the first element of the comprehension is the first line containing "Answer:" |
| QuizParser.SomeLineFirstMarked | app.py:69 | a non-empty comprehension has a first marked line |
| QuizParser.AnswerFromFirstMarkedLine | app.py:69-70 | the answer is the stripped text between the first "Answer:" of the first marked line and the next "Answer:" (or the end of the line) |
| QuizParser.RecordFields | app.py:62-72 | a record's text is the stripped first line, its options come from the second line only, and its answer comes from the first line containing "Answer:" |
| QuizParser.LinesRecordFields | app.py:62-72 | the same, stated over the block's lines |
| QuizParser.LinesYieldRecord | app.py:62-72 | the converse: when the B, C and D entries all succeed and the answer is one of the keys, the block's lines give the record of stripped first line, options and answer |
| QuizParser.ThreeLinesYieldRecord | app.py:61-72 | a block of three newline-free lines whose entries and answer succeed, with the answer among the keys, yields that record |
| QuizParser.SplitOfThreeLines | app.py:62 | three newline-free lines joined by "\n" split back into those three lines |
| QuizParser.AnswerLinesOfThree | app.py:69 | of three lines, only the last holding "Answer:", the comprehension keeps that line alone |
| QuizParser.SplitAtFirstLine | app.py:62 | splitting `q + "\n" + rest` gives `q` followed by the lines of `rest` |
| QuizParser.FirstLineOnlyGivesText | app.py:63 | in lines that yield a record, replacing a first line that holds no "Answer:" with another such line changes only the record's text |
| QuizParser.AnswerTextSkipsLine | app.py:69-70 | a first line without "Answer:" has no effect on the answer |
| QuizParser.ParseLinesSameFields | app.py:62-72 | two blocks with the same lines after the first, and the same answer, give records that differ only in the text |
| QuizParser.FirstLineNotValidated | app.py:63 | the question line is never checked: any other first line without "Answer:" gives the same record with the new text |
| QuizParser.Outcomes | app.py:60-74 | one outcome per block, each equal to that block's parse |
| QuizParser.ExtendDropped | app.py:73-74 | a block that raises leaves the output and its selection of blocks unchanged |
| QuizParser.ExtendKept | app.py:71-72 | a kept block appends its record at the end of the output, and that block's index at the end of the selection |
| QuizParser.ParseBlocksInOrder | app.py:59-74 | the output is exactly the successful block parses, in block order (a subsequence chosen by strictly increasing indices) |
| QuizParser.AllDroppedYieldsNothing | app.py:60-74 | if every block raises, the list is empty |
| QuizParser.CleanBlockSeparates | app.py:59 | a block with no blank line and no trailing newline is separated by the first "\n\n" after it |
| QuizParser.NoBlankLineAt | app.py:59 | such a block's text holds no "\n\n" at any position before the separator |
| QuizParser.ParseJoinedBlocks | app.py:59-60 | a reply made of clean blocks joined by blank lines is parsed block by block |
| QuizParser.SecondBlockWithoutAnswerDropped | app.py:59-74 | a good block followed by a block with no "Answer:" gives exactly the first block's record |
| QuizParser.LayoutLinesPlain | app.py:37-42 | when no field holds a line break, the prompt's six lines contain no newline, and lines 2–6 are non-empty |
| QuizParser.SplitOfLines | app.py:62 | splitting lines joined by "\n" gives those lines back (one or more lines, none holding "\n") |
| QuizParser.LayoutBlockYieldsNothing | app.py:37-42 | a block in the prompt's layout ("A. …" on its own line) yields no record, when no field holds a line break and option A holds no "B. " |
| QuizParser.NoBlankLineIsClean | app.py:59 | text with no empty line is a clean block |
| QuizParser.JoinLinesNoBlankLine | app.py:37-42 | lines without newlines, all but the first non-empty, join into text with no blank line |
| QuizParser.LayoutReplyYieldsNothing | app.py:35-51 | a whole reply in the prompt's layout yields the empty list, when no field holds a line break and option A holds no "B. " |
| QuizParser.SampleOptionA | app.py:64 | on the sample's second line, option A is "a B": the "B" before the first "B. " is kept |
| QuizParser.SampleOptionB | app.py:65 | on the sample's second line, option B is "b C", found through the "B. " that `replace` creates |
| QuizParser.SampleOptionC | app.py:66 | on the sample's second line, option C is "c", found the same way |
| QuizParser.SampleOptionD | app.py:67 | on the sample's second line, option D is "d" |
| QuizParser.SampleOptionsMap | app.py:64-67 | the sample's options dictionary is {A: "a B", B: "b C", C: "c", D: "d"} |
| QuizParser.SampleAnswerLines | app.py:69 | only the sample's "Answer: A" line holds the marker |
| QuizParser.SampleAnswer | app.py:69-70 | the sample's answer is "A" |
| QuizParser.SampleBlockYieldsRecord | app.py:61-72 | the sample block yields the full record, so a block can succeed |
| QuizParser.SampleReplyYieldsOneRecord | app.py:57-76 | a reply made of the sample block alone gives exactly that one record |
| PyStr.Contains | app.py:69 | `pat in s` can hold only when `s` is at least as long as `pat` |
| PyStr.ContainsSpec | app.py:69 | `pat in s` holds exactly when `pat` occurs at some index of `s` |
| PyStr.NoOccurrenceBefore | app.py:64-69 | where no position before `i` starts with the pattern's first two characters, the pattern does not occur before `i` |
| PyStr.FindByPair | app.py:64-69 | an occurrence at `i`, with no earlier position starting with the pattern's first two characters, is the one `Find` returns |
| PyStr.AbsentByPair | app.py:64-69 | a string where no position starts with the pattern's first two characters does not contain the pattern |
| PyStr.AbsentChar | app.py:62 | a string without the character `c` does not contain `[c]` |
| PyStr.SplitFirstPiece | app.py:64-67 | piece `[0]` of a split is the text before the first separator |
| PyStr.SecondPieceOfTwo | app.py:65-70 | with a single separator, piece `[1]` is the whole text after it |
| PyStr.ReplaceOnce | app.py:64-66 | replacing a pattern that occurs once with "" removes exactly that occurrence |
| PyStr.StripPlain | app.py:63-70 | `strip` leaves a text that neither starts nor ends with whitespace unchanged |
| PyStr.StripLacks | app.py:65-70 | stripping a text without the marker leaves none |
| PyStr.StripAppendSpace | app.py:64 | a trailing space added to a text does not change its strip |
| PyStr.MarkerAfterSpace | app.py:64 | a three-character marker whose first two characters are not spaces, put after a marker-free text ending in a space, is first found right after that text |
| PyStr.Join | app.py:59 | `sep.join(parts)` starts with the first part and, when there are two or more, with the first part followed by `sep` |
| PyStr.JoinThree | app.py:62 | three parts joined by `sep` are `a + sep + b + sep + c` |
| PyStr.Replace | app.py:64-66 | `s.replace(p, r)` changes the length by `len(r) - len(p)` per occurrence counted by `split` |
| PyStr.LStrip | app.py:63 | `lstrip` gives a text no longer than its input, not starting with whitespace |
| PyStr.RStrip | app.py:63 | `rstrip` gives a text no longer than its input, not ending with whitespace |
| PyStr.Strip | app.py:63-70 | `strip` gives a text no longer than its input that neither starts nor ends with whitespace |
| PyStr.FindSpec | app.py:69 | `Find` returns the first occurrence, and None exactly when there is none (Python's `in`) |
| PyStr.Find | app.py:69 | an occurrence found lies inside the string |
| PyStr.FindIs | app.py:69 | an occurrence with none before it is the one `Find` returns |
| PyStr.Index | app.py:63-70 | indexing succeeds exactly for in-range positions and returns that element |
| PyStr.Split | app.py:59 | `split` always gives at least one piece, and more than one exactly when the separator occurs |
| PyStr.SplitJoin | app.py:59 | joining the pieces of `split` with the separator gives back the string |
| PyStr.SplitPiecesFree | app.py:62 | no piece of a split contains the separator |
| PyStr.SplitPieceContains | app.py:62 | a pattern in one piece of a split is in the whole string |
| PyStr.SplitSecondPiece | app.py:65-70 | piece `[1]` runs from after the first separator to the next separator or the end |
| PyStr.SplitFirst | app.py:59 | when the first separator follows `a`, the split is `a` followed by the split of the rest |
| PyStr.SplitOfJoin | app.py:59 | joining pieces that each end before the separator and then splitting gives the pieces back |
| PyStr.JoinCons | app.py:59 | joining a first piece before a non-empty tail puts one separator between them |
| PyStr.ReplaceAbsent | app.py:64-66 | `replace` leaves a string without the pattern unchanged |
| PyStr.ReplaceIsSplitJoin | app.py:64-66 | `s.replace(p, r)` equals `r.join(s.split(p))` |
| PyStr.ReplaceCanCreateMarker | app.py:65-66 | `replace` can leave a marker behind: removing "B. " from "BB. . x" gives "B. x" |
| PyStr.LStripSpec | app.py:63 | left strip removes exactly the leading whitespace |
| PyStr.RStripSpec | app.py:63 | right strip removes exactly the trailing whitespace |
| PyStr.ContainsStrip | app.py:65-67 | `strip` never creates a marker its input lacks |
| PyStr.StripSurrounded | app.py:70 | stripping whitespace around a text that neither starts nor ends with whitespace gives that text |
| PyStr.StripIdempotent | app.py:63 | stripping twice is stripping once |
| Difficulty.ParseInt | app.py:82 | `int()` succeeds exactly on an optional sign followed by 1 to 4300 decimal digits, and then returns the signed value of those digits |
| Difficulty.LiteralSplit | app.py:82 | a literal splits into sign and digits only at the sign `int()` reads |
| Difficulty.LiteralUnique | app.py:82 | every reading of a text as sign and digits is that one |
| Difficulty.NotLiteral | app.py:82-84 | a text whose part after the sign is empty, holds a non-digit or has more than 4300 digits is not an integer literal |
| Difficulty.GradeDifficulty | app.py:81-85 | the result is an integer exactly when the stripped reply is an integer literal of at most 4300 digits, and it is then the signed value of those digits; otherwise it is the sentinel "Difficulty assessment unclear." |
| Difficulty.NatDecimalDigits | app.py:82 | the decimal form of a natural number is non-empty digits whose value is that number |
| Difficulty.ParseDigits | app.py:82 | 1 to 4300 unsigned decimal digits read as their value |
| Difficulty.ParseNegativeDigits | app.py:82 | a minus sign followed by 1 to 4300 digits reads as the negated value |
| Difficulty.ParseDecimal | app.py:82 | `int(str(n)) == n` whenever `str(n)` does not raise, that is, whenever `n` has at most 4300 digits |
| Difficulty.GradeOfDecimal | app.py:82-83 | any integer of at most 4300 digits, written in decimal with whitespace around it, is graded as that integer |
| Difficulty.TooManyDigitsUnclear | app.py:82-85 | a reply of more than 4300 digits makes `int()` raise `ValueError` and gives the sentinel |
| Difficulty.PlusSignIsRead | app.py:82-83 | the reply "+3" is graded 3 |
| Difficulty.ThreeIsGradedThree | app.py:82-83 | the reply "3" is graded 3 |
| Difficulty.WordsAreUnclear | app.py:84-85 | the reply "pretty hard" gives the sentinel |

## Left out

- API key and model set-up (app.py:8-18): configuration and network, not parsing.
- The model calls (app.py:55, app.py:80): network I/O; the reply is a parameter of `GenerateQuestions` and `GradeDifficulty`.
- PDF text extraction (app.py:21-30): a foreign library.
- Prompt construction (app.py:33-54, app.py:79): string formatting only. The prompt's answer layout is modelled as `LayoutReply`.
- The `print` of each skipped block (app.py:74): console output with no effect on the result.
- The Streamlit page, session state and scoring (app.py:87-119): user-interface code.
- A reply that is not a `str`: the reply is always a string here. In `generate_questions` its `AttributeError` at app.py:59 would escape the function. In `grade_difficulty` the `AttributeError` from `.strip()` at app.py:82 would escape too, since only `ValueError` is caught at app.py:84.
- Difficulty.ParseInt: accepts only an ASCII sign and ASCII digits. Python's `int()` also accepts underscores between digits and non-ASCII decimal digits.
- The 4300-digit limit (`MaxStrDigits`) is CPython's default (3.11 and later, and the security releases that backport it). A program can change it with `sys.set_int_max_str_digits` or the `PYTHONINTMAXSTRDIGITS` environment variable; the model fixes the default.
- Difficulty.GradeDifficulty: weaker than the source for the same reason, since it is built on `ParseInt`.
- PyStr.Strip: uses a fixed `str.isspace()` set of code points rather than the Unicode database of the running Python.
