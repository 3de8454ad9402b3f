/**
  The expansion of HSK vocabulary source rows into one output row per
  pronunciation (app/scripts/preprocessing/read_hsk_sources.rb): the
  separator check of validate_row, Ruby's String#count, #split and #strip, the
  zip of the split columns, and the tab-joined listing the script prints.
  A source row is the list of its tab-separated columns, where an empty
  column is nil (as Ruby's CSV reads it).
 */
module HskSources {
  import opened Wrappers

  /** A column of a CSV row: nil for an empty field. */
  type Column = Option<string>

  /** The ways a row makes the script raise: validate_row's "Wrong separation",
      or a method called on nil (a missing column or a missing zip partner). */
  datatype RowError = WrongSeparation | NilField

  /** The rows printed for some input and the error that stopped the script,
      if any; rows printed before an error stay printed. */
  datatype Expansion = Expansion(rows: seq<seq<string>>, error: Option<RowError>)

  const Tab: char := '\t'

  /** The header line of the listing, in output column order. */
  const Header: seq<string> := ["simp", "trad", "hsk", "pinyin", "pinyin_tonemarks", "eng"]

  /** String#count with a one-character argument: the occurrences of c in s. */
  function Count(s: string, c: char): (n: nat)
    ensures n == 0 <==> c !in s
  {
    if s == [] then 0
    else (if s[0] == c then 1 else 0) + Count(s[1..], c)
  }

  /** Count(s, c) is the multiplicity of c in s. */
  lemma {:induction false} CountIsMultiplicity(s: string, c: char)
    ensures Count(s, c) == multiset(s)[c]
  {
    if s != [] {
      assert s == [s[0]] + s[1..];
      CountIsMultiplicity(s[1..], c);
    }
  }

  /** The check of validate_row: the pinyin column has as many ',' as the
      english column has '|', and when it has a ',' at all, as many as the
      tone-mark column; a nil column it counts in raises. */
  function ValidateRow(pinyin: Column, tonemarks: Column, english: Column): (r: Outcome<RowError>)
    ensures r == Pass <==>
              && pinyin.Some? && english.Some?
              && Count(pinyin.value, ',') == Count(english.value, '|')
              && (',' in pinyin.value ==> tonemarks.Some? && Count(pinyin.value, ',') == Count(tonemarks.value, ','))
    ensures r == Fail(NilField) <==>
              || pinyin.None? || english.None?
              || (Count(pinyin.value, ',') == Count(english.value, '|') && ',' in pinyin.value && tonemarks.None?)
  {
    if pinyin.None? || english.None? then Fail(NilField)
    else if Count(pinyin.value, ',') != Count(english.value, '|') then Fail(WrongSeparation)
    else if ',' in pinyin.value then
      if tonemarks.None? then Fail(NilField)
      else if Count(pinyin.value, ',') != Count(tonemarks.value, ',') then Fail(WrongSeparation)
      else Pass
    else Pass
  }

  /** Every field of s between the separators sep, empty ones included. */
  function Fields(s: string, sep: char): (fs: seq<string>)
    ensures |fs| == Count(s, sep) + 1
    ensures forall k :: 0 <= k < |fs| ==> sep !in fs[k]
    decreases |s|
  {
    if s == [] then [[]]
    else
      var rest := Fields(s[1..], sep);
      if s[0] == sep then [[]] + rest else [[s[0]] + rest[0]] + rest[1..]
  }

  /** Array#join with a one-character separator. */
  function Join(fs: seq<string>, sep: char): string {
    if fs == [] then []
    else if |fs| == 1 then fs[0]
    else fs[0] + [sep] + Join(fs[1..], sep)
  }

  /** Joining the fields of s gives s back. */
  lemma {:induction false} JoinFields(s: string, sep: char)
    ensures Join(Fields(s, sep), sep) == s
    decreases |s|
  {
    if s != [] {
      var rest := Fields(s[1..], sep);
      JoinFields(s[1..], sep);
      if s[0] != sep && |rest| > 1 {
        var fs := Fields(s, sep);
        assert fs[1..] == rest[1..];
        assert Join(rest, sep) == rest[0] + [sep] + Join(rest[1..], sep);
      }
    }
  }

  lemma {:induction false} FieldsWithoutSeparator(a: string, sep: char)
    requires sep !in a
    ensures Fields(a, sep) == [a]
    decreases |a|
  {
    if a != [] {
      assert a[0] != sep && sep !in a[1..];
      FieldsWithoutSeparator(a[1..], sep);
      assert [a[0]] + a[1..] == a;
    }
  }

  /** The fields of a string that starts with a character other than sep. */
  lemma FieldsCons(c: char, t: string, sep: char)
    requires c != sep
    ensures Fields([c] + t, sep) == [[c] + Fields(t, sep)[0]] + Fields(t, sep)[1..]
  {
    assert ([c] + t)[1..] == t;
  }

  lemma {:induction false} FieldsAfterSeparator(a: string, b: string, sep: char)
    requires sep !in a
    ensures Fields(a + [sep] + b, sep) == [a] + Fields(b, sep)
    decreases |a|
  {
    if a == [] {
      var s := [sep] + b;
      assert s[1..] == b;
      assert a + [sep] + b == s;
    } else {
      var t := a[1..] + [sep] + b;
      FieldsAfterSeparator(a[1..], b, sep);
      var ft := Fields(t, sep);
      assert ft[0] == a[1..] && ft[1..] == Fields(b, sep);
      FieldsCons(a[0], t, sep);
      assert a + [sep] + b == [a[0]] + t;
      assert [a[0]] + a[1..] == a;
    }
  }

  /** Splitting the join of separator-free fields gives the fields back. */
  lemma {:induction false} FieldsJoin(fs: seq<string>, sep: char)
    requires fs != []
    requires forall k :: 0 <= k < |fs| ==> sep !in fs[k]
    ensures Fields(Join(fs, sep), sep) == fs
    decreases |fs|
  {
    if |fs| == 1 {
      FieldsWithoutSeparator(fs[0], sep);
    } else {
      FieldsJoin(fs[1..], sep);
      FieldsAfterSeparator(fs[0], Join(fs[1..], sep), sep);
      assert [fs[0]] + fs[1..] == fs;
    }
  }

  /** The last field of s is empty exactly when s is empty or ends in sep. */
  lemma {:induction false} LastField(s: string, sep: char)
    ensures var fs := Fields(s, sep); fs[|fs| - 1] == [] <==> s == [] || s[|s| - 1] == sep
    decreases |s|
  {
    if s != [] && s[1..] != [] {
      LastField(s[1..], sep);
      var rest := Fields(s[1..], sep);
      if |rest| == 1 && s[0] != sep {
        FieldsWithoutSeparator(s[1..], sep);
      }
    }
  }

  /** The list without its trailing empty strings. */
  function DropTrailingEmpty(fs: seq<string>): (r: seq<string>)
    ensures |r| <= |fs| && r == fs[..|r|]
    ensures forall k :: |r| <= k < |fs| ==> fs[k] == []
    ensures r != [] ==> r[|r| - 1] != []
    decreases |fs|
  {
    if fs == [] then []
    else if fs[|fs| - 1] == [] then DropTrailingEmpty(fs[..|fs| - 1])
    else fs
  }

  /** String#split with a one-character separator other than a space: the
      fields between the separators, without the trailing empty ones. */
  function Split(s: string, sep: char): (r: seq<string>)
    ensures |r| <= Count(s, sep) + 1
    ensures forall k :: 0 <= k < |r| ==> r[k] == Fields(s, sep)[k] && sep !in r[k]
    ensures forall k :: |r| <= k < |Fields(s, sep)| ==> Fields(s, sep)[k] == []
    ensures r != [] ==> r[|r| - 1] != []
  {
    DropTrailingEmpty(Fields(s, sep))
  }

  /** A string that does not end in the separator splits into all its
      fields, one more than its separators. */
  lemma SplitKeepsEveryField(s: string, sep: char)
    requires s != [] && s[|s| - 1] != sep
    ensures Split(s, sep) == Fields(s, sep)
    ensures |Split(s, sep)| == Count(s, sep) + 1
  {
    LastField(s, sep);
  }

  /** The whitespace String#strip removes: null, \t, \n, \v, \f, \r and space. */
  predicate IsSpace(c: char) {
    c == '\U{0}' || c == '\t' || c == '\n' || c == '\U{B}' || c == '\U{C}' || c == '\r' || c == ' '
  }

  /** s without its leading whitespace. */
  function StripLeft(s: string): string {
    if s != [] && IsSpace(s[0]) then StripLeft(s[1..]) else s
  }

  /** s without its trailing whitespace. */
  function StripRight(s: string): string {
    if s != [] && IsSpace(s[|s| - 1]) then StripRight(s[..|s| - 1]) else s
  }

  /** StripLeft(s) is the suffix of s after its leading whitespace. */
  lemma {:induction false} StripLeftTrims(s: string)
    ensures var r := StripLeft(s);
      && |r| <= |s| && r == s[|s| - |r|..]
      && (forall k :: 0 <= k < |s| - |r| ==> IsSpace(s[k]))
      && (r != [] ==> !IsSpace(r[0]))
    decreases |s|
  {
    if s != [] && IsSpace(s[0]) {
      StripLeftTrims(s[1..]);
    }
  }

  /** StripRight(s) is the prefix of s before its trailing whitespace. */
  lemma {:induction false} StripRightTrims(s: string)
    ensures var r := StripRight(s);
      && |r| <= |s| && r == s[..|r|]
      && (forall k :: |r| <= k < |s| ==> IsSpace(s[k]))
      && (r != [] ==> !IsSpace(r[|r| - 1]))
    decreases |s|
  {
    if s != [] && IsSpace(s[|s| - 1]) {
      StripRightTrims(s[..|s| - 1]);
    }
  }

  /** r is the slice of s from i, with nothing but whitespace around it. */
  ghost predicate PaddedAt(s: string, i: int, r: string) {
    && 0 <= i <= |s| - |r| && r == s[i..i + |r|]
    && (forall k :: 0 <= k < i ==> IsSpace(s[k]))
    && (forall k :: i + |r| <= k < |s| ==> IsSpace(s[k]))
  }

  /** String#strip. */
  function Strip(s: string): string {
    StripRight(StripLeft(s))
  }

  /** Strip(s) is the slice of s between its leading and its trailing
      whitespace. */
  lemma StripTrims(s: string)
    ensures exists i :: PaddedAt(s, i, Strip(s))
    ensures var r := Strip(s); r != [] ==> !IsSpace(r[0]) && !IsSpace(r[|r| - 1])
  {
    var l := StripLeft(s);
    var r := StripRight(l);
    StripLeftTrims(s);
    StripRightTrims(l);
    var i := |s| - |l|;
    assert r == s[i..i + |r|];
    assert forall k :: i + |r| <= k < |s| ==> s[k] == l[k - i];
    assert Strip(s) == r;
    assert PaddedAt(s, i, r);
    assert r != [] ==> r[0] == l[0];
  }

  /** A string without whitespace at either end is its own strip. */
  lemma StripUnpadded(s: string)
    requires s != [] ==> !IsSpace(s[0]) && !IsSpace(s[|s| - 1])
    ensures Strip(s) == s
  {
    assert StripLeft(s) == s;
  }

  /** Stripping twice strips no more than stripping once. */
  lemma StripIdempotent(s: string)
    ensures Strip(Strip(s)) == Strip(s)
  {
    StripTrims(s);
    StripUnpadded(Strip(s));
  }

  /** The value print_word prints for a column: nil joins as the empty string. */
  function Text(c: Column): string {
    if c.Some? then c.value else []
  }

  /** The column at index k of a row; a short row pads with nil, as Ruby's
      multiple assignment does. */
  function ColumnAt(row: seq<Column>, k: nat): Column {
    if k < |row| then row[k] else None
  }

  /** The row printed for one meaning: the shared simp, trad and level, and
      that meaning's pinyin, tone-mark and english pieces, stripped. */
  function MeaningRow(simp: string, trad: string, level: string, pin: string, marks: string, eng: string): seq<string> {
    [simp, trad, level, Strip(pin), Strip(marks), Strip(eng)]
  }

  /** The zip of the split pinyin, tone-mark and english lists: one row per
      pinyin piece with the pieces at that index stripped, until a shorter
      list runs out, where the nil piece makes strip raise. */
  function ZipRows(simp: string, trad: string, level: string,
                   pins: seq<string>, marks: seq<string>, engs: seq<string>): (e: Expansion)
    ensures e.error.Some? <==> |pins| > |marks| || |pins| > |engs|
    ensures e.error.Some? ==> e.error.value == NilField
    ensures |e.rows| == Min(|pins|, Min(|marks|, |engs|))
    ensures forall k :: 0 <= k < |e.rows| ==> e.rows[k] == MeaningRow(simp, trad, level, pins[k], marks[k], engs[k])
    decreases |pins|
  {
    if pins == [] then Expansion([], None)
    else if marks == [] || engs == [] then Expansion([], Some(NilField))
    else
      var rest := ZipRows(simp, trad, level, pins[1..], marks[1..], engs[1..]);
      var rows := [MeaningRow(simp, trad, level, pins[0], marks[0], engs[0])] + rest.rows;
      ZipRowsCons(simp, trad, level, pins, marks, engs, rest.rows);
      Expansion(rows, rest.error)
  }

  /** The rows zipped from the tails, behind the row of the heads, are the
      rows zipped from the whole lists. */
  lemma ZipRowsCons(simp: string, trad: string, level: string,
                    pins: seq<string>, marks: seq<string>, engs: seq<string>, rest: seq<seq<string>>)
    requires pins != [] && marks != [] && engs != []
    requires |rest| < |pins| && |rest| < |marks| && |rest| < |engs|
    requires forall k :: 0 <= k < |rest| ==>
               rest[k] == MeaningRow(simp, trad, level, pins[1..][k], marks[1..][k], engs[1..][k])
    ensures var rows := [MeaningRow(simp, trad, level, pins[0], marks[0], engs[0])] + rest;
      forall k :: 0 <= k < |rows| ==> rows[k] == MeaningRow(simp, trad, level, pins[k], marks[k], engs[k])
  {
    var rows := [MeaningRow(simp, trad, level, pins[0], marks[0], engs[0])] + rest;
    forall k | 1 <= k < |rows|
      ensures rows[k] == MeaningRow(simp, trad, level, pins[k], marks[k], engs[k])
    {
      assert rows[k] == rest[k - 1];
      assert pins[1..][k - 1] == pins[k] && marks[1..][k - 1] == marks[k] && engs[1..][k - 1] == engs[k];
    }
  }

  /** Every zipped row has the six output columns and the shared simp, trad
      and level, and zipping never raises "Wrong separation". */
  lemma ZipRowsShape(simp: string, trad: string, level: string,
                     pins: seq<string>, marks: seq<string>, engs: seq<string>)
    ensures var e := ZipRows(simp, trad, level, pins, marks, engs);
      && (forall k :: 0 <= k < |e.rows| ==>
            |e.rows[k]| == |Header| && e.rows[k][0] == simp && e.rows[k][1] == trad && e.rows[k][2] == level)
      && e.error != Some(WrongSeparation)
  {
  }

  /** A row has several meanings when its pinyin has a ',' or its english a '|'. */
  predicate MultiMeaning(pinyin: string, english: string) {
    Count(pinyin, ',') > 0 || Count(english, '|') > 0
  }

  /** The rows printed for one source row [simp, trad, pinyin, tonemarks,
      english] of the given level, and the error it raises, if any. */
  function ExpandRow(row: seq<Column>, level: string): (e: Expansion)
    ensures forall k :: 0 <= k < |e.rows| ==> |e.rows[k]| == |Header|
    ensures forall k :: 0 <= k < |e.rows| ==>
              e.rows[k][0] == Text(ColumnAt(row, 0)) && e.rows[k][1] == Text(ColumnAt(row, 1)) && e.rows[k][2] == level
    ensures e.error == Some(WrongSeparation) ==> e.rows == []
  {
    var simp := ColumnAt(row, 0);
    var trad := ColumnAt(row, 1);
    var pinyin := ColumnAt(row, 2);
    var tonemarks := ColumnAt(row, 3);
    var english := ColumnAt(row, 4);
    if pinyin.None? then Expansion([], Some(NilField))
    else if Count(pinyin.value, ',') == 0 && english.None? then Expansion([], Some(NilField))
    else if Count(pinyin.value, ',') > 0 || Count(english.value, '|') > 0 then
      match ValidateRow(pinyin, tonemarks, english)
      case Fail(err) => Expansion([], Some(err))
      case Pass =>
        ZipRowsShape(Text(simp), Text(trad), level,
                     Split(pinyin.value, ','), Split(tonemarks.value, ','), Split(english.value, '|'));
        ZipRows(Text(simp), Text(trad), level,
                Split(pinyin.value, ','), Split(tonemarks.value, ','), Split(english.value, '|'))
    else
      Expansion([[Text(simp), Text(trad), level, pinyin.value, Text(tonemarks), english.value]], None)
  }

  /** A row with no ',' in its pinyin and no '|' in its english is printed
      once, unmodified. */
  lemma SingleMeaningRowUnchanged(row: seq<Column>, level: string)
    requires ColumnAt(row, 2).Some? && ColumnAt(row, 4).Some?
    requires !MultiMeaning(ColumnAt(row, 2).value, ColumnAt(row, 4).value)
    ensures ExpandRow(row, level) ==
              Expansion([[Text(ColumnAt(row, 0)), Text(ColumnAt(row, 1)), level,
                          ColumnAt(row, 2).value, Text(ColumnAt(row, 3)), ColumnAt(row, 4).value]], None)
  {
  }

  /** A row with several meanings raises "Wrong separation" exactly when
      validate_row rejects its separator counts. */
  lemma MultiMeaningRowValidated(row: seq<Column>, level: string)
    requires ColumnAt(row, 2).Some? && ColumnAt(row, 4).Some?
    requires MultiMeaning(ColumnAt(row, 2).value, ColumnAt(row, 4).value)
    ensures ExpandRow(row, level).error == Some(WrongSeparation) <==>
              ValidateRow(ColumnAt(row, 2), ColumnAt(row, 3), ColumnAt(row, 4)) == Fail(WrongSeparation)
  {
  }

  /** A row with several meanings whose columns pass validate_row and do not
      end in a separator gives one row per pinyin piece, the k-th pairing the
      k-th stripped pinyin, tone-mark and english pieces under the shared
      simp, trad and level. */
  lemma MultiMeaningRowExpands(row: seq<Column>, level: string)
    requires ColumnAt(row, 2).Some? && ColumnAt(row, 4).Some?
    requires MultiMeaning(ColumnAt(row, 2).value, ColumnAt(row, 4).value)
    requires ValidateRow(ColumnAt(row, 2), ColumnAt(row, 3), ColumnAt(row, 4)) == Pass
    requires var p := ColumnAt(row, 2).value; p[|p| - 1] != ','
    requires var e := ColumnAt(row, 4).value; e[|e| - 1] != '|'
    requires var m := Text(ColumnAt(row, 3)); m != [] && m[|m| - 1] != ','
    ensures ColumnAt(row, 3).Some?
    ensures var p := ColumnAt(row, 2).value;
            var m := ColumnAt(row, 3).value;
            var e := ColumnAt(row, 4).value;
            var x := ExpandRow(row, level);
            && x.error.None?
            && |x.rows| == Count(p, ',') + 1
            && forall k :: 0 <= k < |x.rows| ==>
                 x.rows[k] == MeaningRow(Text(ColumnAt(row, 0)), Text(ColumnAt(row, 1)), level,
                                         Fields(p, ',')[k], Fields(m, ',')[k], Fields(e, '|')[k])
  {
    var p := ColumnAt(row, 2).value;
    var e := ColumnAt(row, 4).value;
    assert Count(p, ',') > 0;
    var m := ColumnAt(row, 3).value;
    SplitKeepsEveryField(p, ',');
    SplitKeepsEveryField(m, ',');
    SplitKeepsEveryField(e, '|');
    var simp := Text(ColumnAt(row, 0));
    var trad := Text(ColumnAt(row, 1));
    assert ExpandRow(row, level) == ZipRows(simp, trad, level, Fields(p, ','), Fields(m, ','), Fields(e, '|'));
  }

  /** validate_row compares separator counts, but split drops trailing empty
      fields: a row whose english ends in '|' passes validation and still
      raises when zip pairs its last pinyin piece with nil, after printing
      the rows before it. */
  lemma ValidatedRowCanRaise()
    ensures ValidateRow(Some("a,b"), Some("a,b"), Some("x|")) == Pass
    ensures ExpandRow([Some("s"), Some("t"), Some("a,b"), Some("a,b"), Some("x|")], "1")
            == Expansion([["s", "t", "1", "a", "a", "x"]], Some(NilField))
  {
    var row := [Some("s"), Some("t"), Some("a,b"), Some("a,b"), Some("x|")];
    CountExample();
    SplitExample();
    ZipExample();
    assert ExpandRow(row, "1") == ZipRows("s", "t", "1", ["a", "b"], ["a", "b"], ["x"]);
  }

  /** The zip of the example of ValidatedRowCanRaise. */
  lemma ZipExample()
    ensures ZipRows("s", "t", "1", ["a", "b"], ["a", "b"], ["x"]) == Expansion([["s", "t", "1", "a", "a", "x"]], Some(NilField))
  {
    assert Strip("a") == "a" && Strip("x") == "x";
    assert MeaningRow("s", "t", "1", "a", "a", "x") == ["s", "t", "1", "a", "a", "x"];
  }

  /** The separator counts of the example of ValidatedRowCanRaise. */
  lemma CountExample()
    ensures Count("a,b", ',') == 1 && Count("x|", '|') == 1
  {
    assert "a,b"[1..] == ",b" && ",b"[1..] == "b" && "b"[1..] == "";
    assert "x|"[1..] == "|" && "|"[1..] == "";
  }

  /** The pieces of the example of ValidatedRowCanRaise. */
  lemma SplitExample()
    ensures Split("a,b", ',') == ["a", "b"]
    ensures Split("x|", '|') == ["x"]
  {
    FieldsAfterSeparator("a", "b", ',');
    FieldsWithoutSeparator("b", ',');
    assert "a" + [','] + "b" == "a,b";
    FieldsAfterSeparator("x", "", '|');
    assert "x" + ['|'] + "" == "x|";
    assert Fields("", '|') == [""];
  }

  /** No row of the loop raises. */
  ghost predicate Clean(es: seq<Expansion>) {
    forall i :: 0 <= i < |es| ==> es[i].error.None?
  }

  /** All rows printed for the rows of the loop, in order. */
  function Emitted(es: seq<Expansion>): seq<seq<string>>
    decreases |es|
  {
    if es == [] then [] else Emitted(es[..|es| - 1]) + es[|es| - 1].rows
  }

  /** The loop stops at its i-th row with the error and printed rows of e:
      the rows before it are clean. */
  ghost predicate StopsAt(es: seq<Expansion>, i: int, e: Expansion) {
    && 0 <= i < |es| && Clean(es[..i])
    && e.error == es[i].error
    && e.rows == Emitted(es[..i]) + es[i].rows
  }

  /** The words.each loop, given what each source row prints and raises:
      the rows of each source row in turn, until the first that raises. */
  function RunRows(es: seq<Expansion>): (e: Expansion)
    ensures e.error.None? <==> Clean(es)
    ensures e.error.None? ==> e.rows == Emitted(es)
    ensures e.error.Some? ==> exists i :: StopsAt(es, i, e)
    decreases |es|
  {
    if es == [] then Expansion([], None)
    else
      var init := es[..|es| - 1];
      var prev := RunRows(init);
      if prev.error.Some? then
        RunRowsAfterError(es, init, prev);
        prev
      else
        var last := es[|es| - 1];
        assert forall i :: 0 <= i < |init| ==> init[i] == es[i];
        var e := Expansion(prev.rows + last.rows, last.error);
        assert last.error.Some? ==> es[..|es| - 1] == init && StopsAt(es, |es| - 1, e);
        e
  }

  /** An error before the last row stops the loop there. */
  lemma RunRowsAfterError(es: seq<Expansion>, init: seq<Expansion>, prev: Expansion)
    requires es != [] && init == es[..|es| - 1] && prev.error.Some?
    requires exists i :: StopsAt(init, i, prev)
    ensures !Clean(es)
    ensures exists i :: StopsAt(es, i, prev)
  {
    var i :| StopsAt(init, i, prev);
    assert init[..i] == es[..i];
    assert init[i] == es[i];
    assert StopsAt(es, i, prev);
  }

  /** What each source row of one level prints and raises. */
  function ExpandRows(rows: seq<seq<Column>>, level: string): (es: seq<Expansion>)
    ensures |es| == |rows|
    ensures forall i :: 0 <= i < |rows| ==> es[i] == ExpandRow(rows[i], level)
  {
    seq(|rows|, i requires 0 <= i < |rows| => ExpandRow(rows[i], level))
  }

  /** The script's output for the source rows of one level: the header line,
      then the rows of every source row, until the first one that raises. */
  function Listing(rows: seq<seq<Column>>, level: string): (e: Expansion)
    ensures |e.rows| >= 1 && e.rows[0] == Header
    ensures e.error.None? <==> forall i :: 0 <= i < |rows| ==> ExpandRow(rows[i], level).error.None?
    ensures e.error.None? ==> e.rows == [Header] + Emitted(ExpandRows(rows, level))
    ensures e.error.Some? ==> exists i :: StopsAt(ExpandRows(rows, level), i, Expansion(e.rows[1..], e.error))
  {
    var body := RunRows(ExpandRows(rows, level));
    assert ([Header] + body.rows)[1..] == body.rows;
    Expansion([Header] + body.rows, body.error)
  }

  /** print_word: the fields joined by tabs. */
  function PrintWord(fields: seq<string>): string {
    Join(fields, Tab)
  }

  /** A printed line whose fields hold no tab reads back as those fields. */
  lemma PrintWordReadsBack(fields: seq<string>)
    requires fields != []
    requires forall k :: 0 <= k < |fields| ==> Tab !in fields[k]
    ensures Fields(PrintWord(fields), Tab) == fields
  {
    FieldsJoin(fields, Tab);
  }
}
