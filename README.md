# Graphan core: text annotation, panel tables and HSK source rows

A Dafny model of the three small algorithmic pieces of the Graphan vocabulary
tracker, with their properties proved.

- **`AnnotatedTexts`** (`annotated_text.dfy`, after `app/lib/text.rb`) models
  `AnnotatedText`. It cuts a text into tokens by greedy longest match against
  the learner's vocabulary records:
  - at each position it tries the slices of length 4, 3, 2 and 1;
  - when none matches, it takes one character, classed as punctuation or as an
    unknown character;
  - while cutting, it accumulates the matched words' levels and the number of
    known words;
  - it then derives the average score, the number of HSK words, the number of
    non-punctuation tokens and the known proportion.

  The class keeps the source's fields. `Segment` is the source's nested loop,
  proved against the specification function `Tokens`.
- **`Panels`** (`panel.dfy`, after `app/lib/panel.rb`) models `Panel`:
  - the table of counts per level and knowledge state, built from query rows;
  - the counts table, with a sum per state row and a Total row of column sums;
  - the backbone coverage table.
- **`HskSources`** (`hsk_sources.dfy`, after
  `app/scripts/preprocessing/read_hsk_sources.rb`) models the HSK word-list
  printer as pure functions:
  - the separator check `validate_row`;
  - the expansion of a row with several meanings into one printed row per
    pronunciation;
  - the loop over the rows, which stops at the first row that raises.
- **`Wrappers`** (`wrappers.dfy`) holds `Option`, `Result` and `Outcome`.

Ruby's behaviour is written out where it matters:
- an empty CSV field reads as nil (`Column = Option<string>`);
- multiple assignment pads a short row with nil;
- calling `count` or `strip` on nil raises (`NilField`);
- `String#split` drops trailing empty fields (`Split` over `Fields`);
- `zip` pads a shorter list with nil;
- `String#strip` removes NUL, `\t`, `\n`, `\v`, `\f`, `\r` and space;
- `join` prints nil as the empty string;
- a slice `text[i...i+len]` is cut short at the end of the text;
- the float divisions in `annotate` are exact ratios, with denominator 0
  standing for NaN.

## Model

| member | source | states |
|---|---|---|
| AnnotatedTexts.IsPunct | app/lib/text.rb:15 | the character class of the punctuation pattern: the 13 listed characters (`.`, space, 、, 。, ，, `:`, ：, `?`, `"`, “, ”, `!`, ！) plus Ruby's ASCII `\s` (tab, line feed, vertical tab, form feed, carriage return) |
| AnnotatedTexts.Tokens | app/lib/text.rb:34-56 | the token list segment produces: empty for an empty text, otherwise the greedy token at the start of the text followed by the tokens of what follows it |
| AnnotatedTexts.Scores | app/lib/text.rb:63 | @scores: the levels of the records of the HSK-word tokens, in token order |
| AnnotatedTexts.KnownCount | app/lib/text.rb:64 | @words_known: the number of HSK-word tokens whose record's relation is KNOWS |
| AnnotatedTexts.HskCount | app/lib/text.rb:28 | hsk_words: the number of tokens of type HSK word |
| AnnotatedTexts.NonPunctCount | app/lib/text.rb:29 | total_words: the number of tokens not of type punctuation |
| AnnotatedTexts.MatchLength | app/lib/text.rb:43-52 | the inner loop's result is the longest slice of length at most 4 at the position that is a vocabulary word, or 0 when none is |
| AnnotatedTexts.FirstIndex | app/lib/text.rb:61 | `select{simp == w}[0]` is the record at the first index whose simplified form is w |
| AnnotatedTexts.NextToken | app/lib/text.rb:43-54 | each emitted token is a non-empty prefix of the rest of the text, of at most 4 characters, so the cursor strictly advances |
| AnnotatedTexts.NextTokenGreedy | app/lib/text.rb:43-71 | a token carries a record iff it is an HSK word; an HSK word is in the vocabulary with the first matching record; no longer slice of length up to 4 is a word; an unmatched token is one character, punctuation iff it is in the punctuation set |
| AnnotatedTexts.TokensConcat | app/lib/text.rb:46-54 | the emitted tokens concatenate back to the input text |
| AnnotatedTexts.TokensIdempotent | app/lib/text.rb:42-55 | segmenting the concatenated tokens again gives the same tokens |
| AnnotatedTexts.TokenAt | app/lib/text.rb:42-55 | token i is the greedy token at the offset where the tokens before it end |
| AnnotatedTexts.TokenProperties | app/lib/text.rb:43-71 | every token, at its offset p: length 1..4, equals text[p..p+len], greedy-maximal, first matching record, and single-character punctuation-or-char classification |
| AnnotatedTexts.TokensCarry | app/lib/text.rb:60-71 | every token carries a record exactly when it is an HSK word |
| AnnotatedTexts.CountersConsistent | app/lib/text.rb:28-29 | one score per HSK word, and words known <= HSK words <= non-punctuation tokens <= tokens |
| AnnotatedTexts.ScoresAppend | app/lib/text.rb:63-64 | the scores and the known count of a longer token list extend those of the shorter one |
| AnnotatedTexts.ExampleTokens | app/lib/text.rb:34-56 | 正在工作 with the record 正在 is cut into the word 正在 and the characters 工 and 作 |
| AnnotatedTexts.ExampleCounts | app/lib/text.rb:27-30 | for that example the scores are [4], no word is known and three tokens count as words |
| AnnotatedTexts.GreedyStep | app/lib/text.rb:43-74 | the slice the inner loop settles on, made into a token by add_word, is the greedy token |
| AnnotatedTexts.TokensShift | app/lib/text.rb:53-54 | after one token the cursor advances strictly and the tokens of the text are those done, the new one, then the tokens of the rest |
| AnnotatedTexts.AnnotatedText.constructor | app/lib/text.rb:11-19 | construction annotates: words are the tokens of the text, they concatenate back to it, and the counters are consistent |
| AnnotatedTexts.AnnotatedText.Annotate | app/lib/text.rb:21-31 | resets the words and counters, segments, then sets avg_score = sum/size of the scores, hsk_words, total_words and known_proportion = known/total |
| AnnotatedTexts.AnnotatedText.Segment | app/lib/text.rb:34-56 | appends the tokens of the whole text to words, their levels to scores and the known ones to words_known |
| AnnotatedTexts.AnnotatedText.SegmentAt | app/lib/text.rb:43-54 | one outer iteration appends the greedy token at i and advances i by its length |
| AnnotatedTexts.AnnotatedText.LongestWordAt | app/lib/text.rb:43-52 | found iff some slice of length 1..4 at i is a word; the slice taken is the longest such, or one character when none is |
| AnnotatedTexts.AnnotatedText.AddWord | app/lib/text.rb:58-74 | a found word gets the first matching record, its level is pushed on scores and KNOWS counts; otherwise punctuation iff the regex matches, and the counters are untouched |
| Panels.Zeroes | app/lib/panel.rb:13 | the initial table: keys exactly the six levels, each mapping exactly the three states, every count 0 |
| Panels.Tabulate | app/lib/panel.rb:8-20 | the table's keys are exactly the six levels |
| Panels.TabulateKeys | app/lib/panel.rb:13-20 | each level maps the three states and every relation some query row stored at that level |
| Panels.TabulateKeysExact | app/lib/panel.rb:9-20 | when the query rows name only the three states, each level maps exactly those three |
| Panels.TabulateLastWins | app/lib/panel.rb:15-20 | a stored count is the one of the last query row for that level and state |
| Panels.TabulateUntouched | app/lib/panel.rb:13 | a state no query row names at a level keeps its count 0 |
| Panels.TabulateExample | app/spec/panel_spec.rb:17-30 | one IGNORES row at level 1 with count 1 gives keys "1".."6", each with exactly the three states, 1 in that cell and 0 elsewhere |
| Panels.TabulateComplete | app/lib/panel.rb:13 | every level maps every state |
| Panels.Panel.constructor | app/lib/panel.rb:6-21 | the loop over the query rows leaves the table of Tabulate |
| Panels.Panel.StateRow | app/lib/panel.rb:26-33 | a state row is the state, its count at each level in order, and under All their sum |
| Panels.Panel.CountsTable | app/lib/panel.rb:23-47 | headings [:state, "1".."6", :All]; three state rows in state order as above, then a Total row whose every column is that column's sum over the state rows, its All cell also equal to the sum of its level cells |
| Panels.TotalRow | app/lib/panel.rb:37-42 | the Total row holds "Total", then the sum of each column over the rows |
| Panels.ColumnSumPrefix | app/lib/panel.rb:43 | appending the Total row does not change the column sums over the rows before it |
| Panels.GrandTotal | app/lib/panel.rb:37-43 | the Total row's All cell, the sum of the All column, equals the sum of the Total row's level cells |
| Panels.SumsSwap | app/lib/panel.rb:37-42 | summing a block of cells row by row or column by column gives the same total |
| Panels.FirstWrongSize | app/lib/panel.rb:53-55 | the size reported is that of the first list, in argument order, whose size is not 6; none iff all three have 6 entries |
| Panels.BackboneTable | app/lib/panel.rb:49-60 | raises iff some list does not have 6 entries, naming the first such size; otherwise fixed headings and row i is [connect[i], disconn[i], words_connected[i], level i] |
| Panels.BackboneTableIgnoresLevelKeys | app/lib/panel.rb:56-58 | rows are positional: column 0 is connect[i], column 1 is disconn[i] (the first two arguments land swapped), column 3 is the i-th level, and lists with the same counts under other level keys give the same table |
| Panels.BackboneTableColumnOrder | app/spec/panel_spec.rb:80-84 | the example's lists padded to six entries (first argument 5, second 10 at level "2") put 10 in column 0 of the level-"2" row and 5 in column 1 |
| Panels.BackboneTableRaisesOnShortLists | app/spec/panel_spec.rb:70-84 | the tests' inputs, three empty lists and lists of sizes 1, 1, 0, make the code raise, with sizes 0 and 1 |
| HskSources.Count | app/scripts/preprocessing/read_hsk_sources.rb:7 | the count is 0 iff the character does not occur |
| HskSources.CountIsMultiplicity | app/scripts/preprocessing/read_hsk_sources.rb:7 | String#count with one character is that character's multiplicity |
| HskSources.ValidateRow | app/scripts/preprocessing/read_hsk_sources.rb:6-11 | passes iff pinyin and english are present with as many ',' as '|', and, when pinyin has a ',', tone marks are present with as many ','; a nil column raises the nil error |
| HskSources.Fields | app/scripts/preprocessing/read_hsk_sources.rb:27-29 | a string has one more field than separators, and no field holds the separator |
| HskSources.JoinFields | app/scripts/preprocessing/read_hsk_sources.rb:27-29 | joining the fields with the separator gives the string back |
| HskSources.FieldsJoin | app/scripts/preprocessing/read_hsk_sources.rb:27-29 | splitting the join of separator-free fields gives the fields back |
| HskSources.LastField | app/scripts/preprocessing/read_hsk_sources.rb:27-29 | the last field is empty iff the string is empty or ends in the separator |
| HskSources.DropTrailingEmpty | app/scripts/preprocessing/read_hsk_sources.rb:27-29 | the result is the longest prefix not ending in an empty string, and only empty strings are dropped |
| HskSources.Split | app/scripts/preprocessing/read_hsk_sources.rb:27-29 | String#split keeps the fields in order up to the last non-empty one, and drops only trailing empty fields |
| HskSources.SplitKeepsEveryField | app/scripts/preprocessing/read_hsk_sources.rb:27-29 | a string not ending in the separator splits into all count + 1 fields |
| HskSources.Strip | app/scripts/preprocessing/read_hsk_sources.rb:31 | String#strip: the right strip of the left strip, removing the whitespace at both ends |
| HskSources.StripLeftTrims | app/scripts/preprocessing/read_hsk_sources.rb:31 | the left strip is the suffix after the leading whitespace |
| HskSources.StripRightTrims | app/scripts/preprocessing/read_hsk_sources.rb:31 | the right strip is the prefix before the trailing whitespace |
| HskSources.StripTrims | app/scripts/preprocessing/read_hsk_sources.rb:31 | strip gives the slice with only whitespace around it, and neither of its ends is whitespace |
| HskSources.StripUnpadded | app/scripts/preprocessing/read_hsk_sources.rb:31 | a string with no whitespace at either end is its own strip |
| HskSources.StripIdempotent | app/scripts/preprocessing/read_hsk_sources.rb:31 | stripping twice is stripping once |
| HskSources.ZipRows | app/scripts/preprocessing/read_hsk_sources.rb:30-32 | one row per pinyin piece with the stripped pieces at that index, until a shorter list runs out, which raises the nil error |
| HskSources.ExpandRow | app/scripts/preprocessing/read_hsk_sources.rb:23-35 | every printed row has 6 columns and shares simp, trad and level; a separation error prints nothing |
| HskSources.SingleMeaningRowUnchanged | app/scripts/preprocessing/read_hsk_sources.rb:33-34 | a row with no ',' in pinyin and no bar in english prints one unmodified row |
| HskSources.MultiMeaningRowValidated | app/scripts/preprocessing/read_hsk_sources.rb:24-26 | a row with several meanings raises "Wrong separation" iff validate_row does |
| HskSources.MultiMeaningRowExpands | app/scripts/preprocessing/read_hsk_sources.rb:24-32 | a validated row without trailing separators prints one row per pinyin piece, its k-th row holding the k-th stripped pieces |
| HskSources.ValidatedRowCanRaise | app/scripts/preprocessing/read_hsk_sources.rb:26-32 | english "x" followed by a bar passes the count check but splits into one piece, so the second pinyin piece zips with nil and the row raises after printing one row |
| HskSources.ZipExample | app/scripts/preprocessing/read_hsk_sources.rb:30-32 | zipping two pinyin pieces with one english piece prints one row, then raises |
| HskSources.SplitExample | app/scripts/preprocessing/read_hsk_sources.rb:27-29 | "a,b" splits into two pieces, and "x" followed by a bar into one |
| HskSources.RunRows | app/scripts/preprocessing/read_hsk_sources.rb:22-36 | the loop finishes iff no row raises, printing all rows in order; otherwise it stops at the first row that raises, keeping the rows printed before it |
| HskSources.RunRowsAfterError | app/scripts/preprocessing/read_hsk_sources.rb:22-36 | once a row has raised, later rows change nothing |
| HskSources.Listing | app/scripts/preprocessing/read_hsk_sources.rb:21-36 | the output starts with the header line; it completes iff no row raises, and then prints every row's expansion in order; otherwise it stops at the first row that raises, after the header and the rows printed before and by that row |
| HskSources.PrintWord | app/scripts/preprocessing/read_hsk_sources.rb:13-15 | print_word's line: the fields joined by a tab |
| HskSources.PrintWordReadsBack | app/scripts/preprocessing/read_hsk_sources.rb:13-15 | a printed line whose fields hold no tab reads back as those fields |

## Left out

- Reading `data/hsk/hsk<level>.txt` (BOM, tab-separated CSV, blank rows skipped) and `puts` are not modelled. `Listing` takes the parsed rows, with nil for empty fields, and returns the printed rows. `ARGV[0]` is the `level` parameter.
- The `raise` in `read_hsk_sources.rb` ends the script. The model returns the error with the rows printed before it (`Expansion`) and does not model the exception's message.
- AnnotatedTexts.AnnotatedText.Annotate: `avg_score` and `known_proportion` are exact ratios (`Ratio`), not floats. A zero denominator stands for NaN, and float rounding is not modelled.
- AnnotatedTexts.Record: the level is an `int`. The source stores a string and converts it with `to_f`, and that parsing is not modelled.
- AnnotatedTexts.AnnotatedText.LongestWordAt: the inner `while` of `segment` is this separate method. AnnotatedTexts.AnnotatedText.SegmentAt is one outer iteration. Both are called in place, and the state changes are the source's.
- Panels.Panel.constructor: a query row whose level is not "1".."6" makes the source fail on a nil hash. The model requires that every level is known (`LevelsKnown`) instead of modelling the crash. A relation other than the three states is stored as a new key, as Ruby's hash does.
- Panels.Panel.CountsTable: the source builds the whole table in one method. The model reads each state row from `StateRow` and the Total row from `TotalRow`.
- Panels.BackboneTable: modelled as a function, since the source only reads its arguments. The raise is the `Failure(UnexpectedSize(size))` result.
- Panels.BackboneTable follows the code and not the tests in `app/spec/panel_spec.rb`:70-84. Those tests expect three things the code does not do: six rows from empty or one-element lists, a lookup of each count by level key, and the first argument's count (5) in column 0 of the level-"2" row. The code raises on such lists (`BackboneTableRaisesOnShortLists`), reads by position (`BackboneTableIgnoresLevelKeys`), and puts the second argument's count in column 0, even once the lists have six entries (`BackboneTableColumnOrder`).
- HskSources.Strip: String#strip here removes NUL at both ends, as current Ruby does. Older Ruby versions keep a leading NUL.
- HskSources.Split: split is modelled for a one-character separator other than a space. The script only uses ',' and '|'. Ruby's special whitespace splitting for `' '` is not needed.
- The source's `:type`, `:text` and `:word` hash keys are the `Token` datatype. Ruby symbols in table cells are `Cell.Sym`, strings are `Cell.Str`, and integers are `Cell.Num`. Terminal-table rendering is not modelled.
