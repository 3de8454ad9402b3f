/**
  Greedy segmentation and annotation of a text against a learner's vocabulary
  (class AnnotatedText of app/lib/text.rb).

  At every position the text is cut at the longest slice of length 4, 3, 2 or 1
  that is the simplified form of some vocabulary record; a position where no
  slice matches becomes a one-character token, classified as punctuation or as
  an unknown character.
 */
module AnnotatedTexts {
  import opened Wrappers

  /** One vocabulary entry of the learner: simplified form, HSK level and the
      learner's relation to the word (IGNORES, LEARNING or KNOWS). */
  datatype Record = Record(simp: string, level: int, rel: string)

  datatype Kind = HskWord | Char | Punctuation

  /** An emitted token: its kind, its surface text and, for a vocabulary word,
      the record it matched. */
  datatype Token = Token(kind: Kind, text: string, word: Option<Record>)

  /** A quotient kept exact; a zero denominator stands for Ruby's NaN. */
  datatype Ratio = Ratio(num: int, den: nat) {
    predicate Defined() { den > 0 }
  }

  /** The longest slice tried at each position. */
  const MaxWordLength: nat := 4

  /** The character class of the punctuation pattern: . space 、 。 ， : ： ? " “ ” ! ！
      and Ruby's \s, which is the ASCII whitespace [ \t\n\v\f\r]. */
  predicate IsPunct(c: char) {
    || c == '.' || c == ' ' || c == '\U{3001}' || c == '\U{3002}' || c == '\U{FF0C}'
    || c == ':' || c == '\U{FF1A}' || c == '?' || c == '"' || c == '\U{201C}' || c == '\U{201D}'
    || c == '!' || c == '\U{FF01}'
    || c == '\t' || c == '\n' || c == '\U{000B}' || c == '\U{000C}' || c == '\r'
  }

  /** Whether the punctuation pattern matches somewhere in w. */
  predicate HasPunct(w: string) {
    exists j :: 0 <= j < |w| && IsPunct(w[j])
  }

  /** The simplified forms of the records, in record order. */
  function Simps(records: seq<Record>): seq<string> {
    seq(|records|, i requires 0 <= i < |records| => records[i].simp)
  }

  /** The inner loop of segment: tries the slices of length len, len - 1, ..., 1
      (clamped to the end of rest) and gives the length of the first that is a
      vocabulary word, or 0 when none is. The result is the longest match. */
  function MatchLength(rest: string, simps: seq<string>, len: nat): (n: nat)
    ensures n <= len && n <= |rest|
    ensures 0 < n ==> rest[..n] in simps
    ensures forall k :: n < k <= len && k <= |rest| ==> rest[..k] !in simps
  {
    if len == 0 then 0
    else if rest[..Min(len, |rest|)] in simps then Min(len, |rest|)
    else MatchLength(rest, simps, len - 1)
  }

  /** The first index at or after from whose record has the simplified form w. */
  function FirstIndexFrom(records: seq<Record>, w: string, from: nat): (k: nat)
    requires from <= |records|
    requires exists i :: from <= i < |records| && records[i].simp == w
    ensures from <= k < |records| && records[k].simp == w
    ensures forall j :: from <= j < k ==> records[j].simp != w
    decreases |records| - from
  {
    if records[from].simp == w then from else FirstIndexFrom(records, w, from + 1)
  }

  /** records.select { simp == w }[0], as an index. */
  function FirstIndex(records: seq<Record>, w: string): (k: nat)
    requires w in Simps(records)
    ensures k < |records| && records[k].simp == w
    ensures forall j :: 0 <= j < k ==> records[j].simp != w
  {
    assert exists i :: 0 <= i < |records| && Simps(records)[i] == w;
    FirstIndexFrom(records, w, 0)
  }

  /** r is the first record, in list order, whose simplified form is w. */
  ghost predicate IsFirstMatch(records: seq<Record>, w: string, r: Record) {
    exists k :: 0 <= k < |records| && records[k] == r && r.simp == w &&
      forall j :: 0 <= j < k ==> records[j].simp != w
  }

  /** The token that segment emits at the start of rest. */
  function NextToken(rest: string, records: seq<Record>): (t: Token)
    requires rest != []
    ensures 1 <= |t.text| <= MaxWordLength && |t.text| <= |rest| && t.text == rest[..|t.text|]
  {
    var n := MatchLength(rest, Simps(records), MaxWordLength);
    if n > 0 then
      var k := FirstIndex(records, rest[..n]);
      Token(HskWord, rest[..n], Some(records[k]))
    else
      Token(if IsPunct(rest[0]) then Punctuation else Char, rest[..1], None)
  }

  /** The token at the start of rest is the longest vocabulary word there,
      carrying the first record with that simplified form; where no word
      matches, it is the first character, punctuation exactly when the
      punctuation pattern matches it. */
  lemma NextTokenGreedy(rest: string, records: seq<Record>)
    requires rest != []
    ensures var t := NextToken(rest, records);
      && (t.kind == HskWord <==> t.word.Some?)
      && (t.kind == HskWord ==> t.text in Simps(records) && IsFirstMatch(records, t.text, t.word.value))
      && (t.kind != HskWord ==> |t.text| == 1 && (t.kind == Punctuation <==> IsPunct(rest[0])))
      && forall k :: (if t.kind == HskWord then |t.text| else 0) < k <= MaxWordLength && k <= |rest| ==>
           rest[..k] !in Simps(records)
  {
    var n := MatchLength(rest, Simps(records), MaxWordLength);
    if n > 0 {
      var k := FirstIndex(records, rest[..n]);
      assert IsFirstMatch(records, rest[..n], records[k]);
    }
  }

  /** The token sequence segment emits for text. */
  function Tokens(text: string, records: seq<Record>): seq<Token>
    decreases |text|
  {
    if text == [] then []
    else
      var t := NextToken(text, records);
      [t] + Tokens(text[|t.text|..], records)
  }

  /** The token texts, concatenated in order. */
  function Concat(ts: seq<Token>): string {
    if ts == [] then [] else ts[0].text + Concat(ts[1..])
  }

  /** Where token i starts in the text. */
  function Offset(ts: seq<Token>, i: nat): nat
    requires i <= |ts|
  {
    |Concat(ts[..i])|
  }

  /** The levels of the matched words, in order (@scores). */
  function Scores(ts: seq<Token>): seq<int> {
    if ts == [] then []
    else
      var t := ts[|ts| - 1];
      Scores(ts[..|ts| - 1]) + (if t.kind == HskWord && t.word.Some? then [t.word.value.level] else [])
  }

  /** The number of matched words whose relation is KNOWS (@words_known). */
  function KnownCount(ts: seq<Token>): nat {
    if ts == [] then 0
    else
      var t := ts[|ts| - 1];
      KnownCount(ts[..|ts| - 1]) + (if t.kind == HskWord && t.word.Some? && t.word.value.rel == "KNOWS" then 1 else 0)
  }

  /** The number of tokens of kind HskWord (hsk_words). */
  function HskCount(ts: seq<Token>): nat {
    if ts == [] then 0
    else HskCount(ts[..|ts| - 1]) + (if ts[|ts| - 1].kind == HskWord then 1 else 0)
  }

  /** The number of tokens that are not punctuation (total_words). */
  function NonPunctCount(ts: seq<Token>): nat {
    if ts == [] then 0
    else NonPunctCount(ts[..|ts| - 1]) + (if ts[|ts| - 1].kind != Punctuation then 1 else 0)
  }

  function Sum(xs: seq<int>): int {
    if xs == [] then 0 else Sum(xs[..|xs| - 1]) + xs[|xs| - 1]
  }

  /** A token carries a record exactly when it is a vocabulary word. */
  predicate Carries(t: Token) {
    t.kind == HskWord <==> t.word.Some?
  }

  // ---------------------------------------------------------------------------
  // Properties of the segmentation

  /** Concatenating the emitted tokens gives back the text. */
  lemma {:induction false} TokensConcat(text: string, records: seq<Record>)
    ensures Concat(Tokens(text, records)) == text
    decreases |text|
  {
    if text != [] {
      var t := NextToken(text, records);
      var rest := text[|t.text|..];
      TokensConcat(rest, records);
      var ts := Tokens(text, records);
      assert ts == [t] + Tokens(rest, records);
      assert ts[1..] == Tokens(rest, records);
      assert text == t.text + rest;
    }
  }

  /** Segmenting the concatenated tokens again gives the same tokens. */
  lemma TokensIdempotent(text: string, records: seq<Record>)
    ensures Tokens(Concat(Tokens(text, records)), records) == Tokens(text, records)
  {
    TokensConcat(text, records);
  }

  /** Token i is the greedy token at its offset. */
  lemma {:induction false} TokenAt(text: string, records: seq<Record>, i: nat)
    requires i < |Tokens(text, records)|
    ensures Offset(Tokens(text, records), i) < |text|
    ensures Tokens(text, records)[i] == NextToken(text[Offset(Tokens(text, records), i)..], records)
    decreases |text|
  {
    var ts := Tokens(text, records);
    var t := NextToken(text, records);
    var rest := text[|t.text|..];
    var rs := Tokens(rest, records);
    assert ts == [t] + rs;
    if i == 0 {
      assert ts[..0] == [];
      assert text[0..] == text;
    } else {
      TokenAt(rest, records, i - 1);
      TokenAtShift(text, records, t, rs, i);
    }
  }

  /** The inductive step of TokenAt: token i of the text is token i - 1 of
      what follows the first token. */
  lemma TokenAtShift(text: string, records: seq<Record>, t: Token, rs: seq<Token>, i: nat)
    requires |t.text| <= |text| && 0 < i <= |rs|
    requires Offset(rs, i - 1) < |text[|t.text|..]|
    requires rs[i - 1] == NextToken(text[|t.text|..][Offset(rs, i - 1)..], records)
    ensures Offset([t] + rs, i) < |text|
    ensures ([t] + rs)[i] == NextToken(text[Offset([t] + rs, i)..], records)
  {
    var n := |t.text|;
    var o := Offset(rs, i - 1);
    OffsetShift(t, rs, i - 1);
    assert text[n..][o..] == text[n + o..];
  }

  /** A token in front shifts every offset by its length. */
  lemma OffsetShift(t: Token, ts: seq<Token>, i: nat)
    requires i <= |ts|
    ensures Offset([t] + ts, i + 1) == |t.text| + Offset(ts, i)
  {
    var us := [t] + ts;
    assert us[..i + 1] == [t] + ts[..i];
    assert ([t] + ts[..i])[1..] == ts[..i];
  }

  /** What every emitted token satisfies, in terms of the text at its offset p:
      it is the slice text[p..p + |text|] of 1 to 4 characters; a vocabulary word
      is the first matching record's simplified form; an unmatched token is one
      character, punctuation exactly when that character is; and no longer slice
      of at most 4 characters at p is a vocabulary word. */
  lemma TokenProperties(text: string, records: seq<Record>, i: nat)
    requires i < |Tokens(text, records)|
    ensures var ts := Tokens(text, records); var p := Offset(ts, i); var t := ts[i];
      && 1 <= |t.text| <= MaxWordLength
      && p + |t.text| <= |text|
      && text[p..p + |t.text|] == t.text
      && (t.kind == HskWord ==>
            t.word.Some? && t.text in Simps(records) && IsFirstMatch(records, t.text, t.word.value))
      && (t.kind != HskWord ==>
            |t.text| == 1 && t.word == None && (t.kind == Punctuation <==> IsPunct(text[p])))
      && (forall e :: p + (if t.kind == HskWord then |t.text| else 0) < e <= p + MaxWordLength && e <= |text| ==>
            text[p..e] !in Simps(records))
  {
    var ts := Tokens(text, records);
    var p := Offset(ts, i);
    TokenAt(text, records, i);
    var rest := text[p..];
    var t := ts[i];
    assert t == NextToken(rest, records);
    NextTokenGreedy(rest, records);
    assert text[p..p + |t.text|] == rest[..|t.text|];
    forall e | p <= e <= |text|
      ensures text[p..e] == rest[..e - p]
    {
    }
  }

  /** Every token carries a record exactly when it is a vocabulary word. */
  lemma TokensCarry(text: string, records: seq<Record>)
    ensures forall i :: 0 <= i < |Tokens(text, records)| ==> Carries(Tokens(text, records)[i])
  {
    forall i | 0 <= i < |Tokens(text, records)|
      ensures Carries(Tokens(text, records)[i])
    {
      TokenAt(text, records, i);
      NextTokenGreedy(text[Offset(Tokens(text, records), i)..], records);
    }
  }

  /** The counters agree: one score per matched word, and
      known words <= matched words <= non-punctuation tokens <= tokens. */
  lemma {:induction false} CountersConsistent(ts: seq<Token>)
    requires forall i :: 0 <= i < |ts| ==> Carries(ts[i])
    ensures |Scores(ts)| == HskCount(ts)
    ensures KnownCount(ts) <= HskCount(ts) <= NonPunctCount(ts) <= |ts|
  {
    if ts != [] {
      CountersConsistent(ts[..|ts| - 1]);
    }
  }

  lemma {:induction false} ScoresAppend(ts: seq<Token>, t: Token)
    ensures Scores(ts + [t]) == Scores(ts) + Scores([t])
    ensures KnownCount(ts + [t]) == KnownCount(ts) + KnownCount([t])
  {
    assert (ts + [t])[..|ts|] == ts;
    assert [t][..0] == [];
  }

  /** The worked example: the record 正在 (level 4, LEARNING) and the text 正在工作. */
  const ExampleWord: string := "\U{6B63}\U{5728}"
  const ExampleRecords: seq<Record> := [Record(ExampleWord, 4, "LEARNING")]
  const ExampleText: string := "\U{6B63}\U{5728}\U{5DE5}\U{4F5C}"

  /** 正在工作 is cut into the word 正在 and the unknown characters 工 and 作. */
  lemma ExampleTokens()
    ensures Tokens(ExampleText, ExampleRecords) ==
      [Token(HskWord, ExampleWord, Some(ExampleRecords[0])),
       Token(Char, "\U{5DE5}", None),
       Token(Char, "\U{4F5C}", None)]
  {
    var recs, text := ExampleRecords, ExampleText;
    var simps := Simps(recs);
    assert simps == [ExampleWord];
    // the whole text and its first three characters are not words, 正在 is
    assert |text[..4]| == 4 && |text[..3]| == 3;
    assert text[..2] == ExampleWord;
    assert MatchLength(text, simps, 2) == 2;
    assert MatchLength(text, simps, MaxWordLength) == 2;
    assert FirstIndex(recs, ExampleWord) == 0;
    var t0 := NextToken(text, recs);
    assert t0 == Token(HskWord, ExampleWord, Some(recs[0]));
    // no slice of 工作 starts with 正
    var rest := text[2..];
    assert rest[..2] == rest && rest[0] == '\U{5DE5}' && rest[..1] == [rest[0]];
    assert rest[..2] != ExampleWord && rest[..1] != ExampleWord;
    assert MatchLength(rest, simps, MaxWordLength) == 0;
    var t1 := NextToken(rest, recs);
    assert !IsPunct('\U{5DE5}');
    assert t1 == Token(Char, "\U{5DE5}", None);
    var last := text[3..];
    assert last[..1] == last && last[0] == '\U{4F5C}';
    assert last != ExampleWord;
    assert MatchLength(last, simps, MaxWordLength) == 0;
    var t2 := NextToken(last, recs);
    assert !IsPunct('\U{4F5C}');
    assert t2 == Token(Char, "\U{4F5C}", None);
    assert rest[1..] == last && last[1..] == [];
    assert Tokens(last, recs) == [t2];
    assert Tokens(rest, recs) == [t1, t2];
  }

  /** For the worked example the score is 4 out of one matched word, nothing
      is known, and there are three non-punctuation tokens. */
  lemma ExampleCounts()
    ensures var ts := Tokens(ExampleText, ExampleRecords);
      Scores(ts) == [4] && KnownCount(ts) == 0 && NonPunctCount(ts) == 3
  {
    ExampleTokens();
    var ts := Tokens(ExampleText, ExampleRecords);
    var t0, t1 := ts[0], ts[1];
    assert ts[..2] == [t0, t1] && [t0, t1][..1] == [t0] && [t0][..0] == [];
    assert Scores([t0]) == [4] && Scores([t0, t1]) == [4];
    assert KnownCount([t0]) == 0 && KnownCount([t0, t1]) == 0;
    assert NonPunctCount([t0]) == 1 && NonPunctCount([t0, t1]) == 2;
  }

  /** The slice the inner loop of segment settles on, and whether it was found,
      determine the greedy token at the start of rest. */
  lemma GreedyStep(rest: string, records: seq<Record>, found: bool, w: string, t: Token)
    requires rest != []
    requires found <==> 0 < MatchLength(rest, Simps(records), MaxWordLength)
    requires w == rest[..if found then MatchLength(rest, Simps(records), MaxWordLength) else 1]
    requires found ==> w in Simps(records) && t == Token(HskWord, w, Some(records[FirstIndex(records, w)]))
    requires !found ==> t == Token(if HasPunct(w) then Punctuation else Char, w, None)
    ensures t == NextToken(rest, records)
  {
    NextTokenGreedy(rest, records);
    if !found {
      assert HasPunct(w) <==> IsPunct(rest[0]) by {
        assert w == [rest[0]];
      }
    }
  }

  /** One more token of the text is done. */
  lemma TokensShift(text: string, records: seq<Record>, done: seq<Token>, i: nat, next: nat, t: Token)
    requires i < |text| && Tokens(text, records) == done + Tokens(text[i..], records)
    requires t == NextToken(text[i..], records) && next == i + |t.text|
    ensures i < next <= |text|
    ensures Tokens(text, records) == (done + [t]) + Tokens(text[next..], records)
  {
    var rest := text[i..];
    TokensUnfold(rest, records, t);
    assert rest[|t.text|..] == text[next..];
    var after := Tokens(text[next..], records);
    assert done + ([t] + after) == (done + [t]) + after;
  }

  /** The tokens of a non-empty text: its first token, then the tokens of
      what follows it. */
  lemma TokensUnfold(rest: string, records: seq<Record>, t: Token)
    requires rest != [] && t == NextToken(rest, records)
    ensures 1 <= |t.text| <= |rest|
    ensures Tokens(rest, records) == [t] + Tokens(rest[|t.text|..], records)
  {
  }

  /** Segmenting from empty words and counters gives the words and counters
      of the tokens alone. */
  lemma FromEmpty(ts: seq<Token>, words: seq<Token>, scores: seq<int>, known: nat)
    requires words == [] + ts && scores == [] + Scores(ts) && known == 0 + KnownCount(ts)
    ensures words == ts && scores == Scores(words) && known == KnownCount(words)
  {
    assert [] + ts == ts && [] + Scores(ts) == Scores(ts);
  }

  /** The accumulated words and counters of segment after one more token. */
  lemma CountersStep(w0: seq<Token>, w1: seq<Token>, w2: seq<Token>, s0: seq<int>, s1: seq<int>, s2: seq<int>,
                     k0: nat, k1: nat, k2: nat, done: seq<Token>, t: Token)
    requires w1 == w0 + done && w2 == w1 + [t]
    requires s1 == s0 + Scores(done) && s2 == s1 + Scores([t])
    requires k1 == k0 + KnownCount(done) && k2 == k1 + KnownCount([t])
    ensures w2 == w0 + (done + [t])
    ensures s2 == s0 + Scores(done + [t]) && k2 == k0 + KnownCount(done + [t])
  {
    ScoresAppend(done, t);
  }

  // ---------------------------------------------------------------------------
  // The annotator object

  class AnnotatedText {
    const text: string
    const records: seq<Record>
    var words: seq<Token>
    var scores: seq<int>
    var wordsKnown: nat
    var avgScore: Ratio
    var hskWords: nat
    var totalWords: nat
    var knownProportion: Ratio

    /** The state annotate leaves behind. */
    ghost predicate Annotated()
      reads this
    {
      && words == Tokens(text, records)
      && scores == Scores(words)
      && wordsKnown == KnownCount(words)
      && avgScore == Ratio(Sum(scores), |scores|)
      && hskWords == HskCount(words)
      && totalWords == NonPunctCount(words)
      && knownProportion == Ratio(wordsKnown, totalWords)
    }

    constructor (text: string, records: seq<Record>)
      ensures this.text == text && this.records == records
      ensures Annotated()
      ensures Concat(words) == text
      ensures |scores| == hskWords && wordsKnown <= hskWords <= totalWords <= |words|
    {
      this.text := text;
      this.records := records;
      new;
      Annotate();
      TokensConcat(text, records);
      TokensCarry(text, records);
      CountersConsistent(words);
    }

    method Annotate()
      modifies this`words, this`scores, this`wordsKnown, this`avgScore,
               this`hskWords, this`totalWords, this`knownProportion
      ensures Annotated()
    {
      scores := [];
      words := [];
      wordsKnown := 0;
      Segment();
      FromEmpty(Tokens(text, records), words, scores, wordsKnown);
      avgScore := Ratio(Sum(scores), |scores|);
      hskWords := HskCount(words);
      totalWords := NonPunctCount(words);
      knownProportion := Ratio(wordsKnown, totalWords);
    }

    /** Appends the tokens of the text to words, their levels to scores, and
        counts the known ones. */
    method Segment()
      modifies this`words, this`scores, this`wordsKnown
      ensures words == old(words) + Tokens(text, records)
      ensures scores == old(scores) + Scores(Tokens(text, records))
      ensures wordsKnown == old(wordsKnown) + KnownCount(Tokens(text, records))
    {
      var simps := Simps(records);
      var i := 0;
      ghost var done: seq<Token> := [];
      assert text[0..] == text;
      assert Tokens(text, records) == done + Tokens(text[i..], records);
      while i < |text|
        invariant 0 <= i <= |text|
        invariant Tokens(text, records) == done + Tokens(text[i..], records)
        invariant words == old(words) + done
        invariant scores == old(scores) + Scores(done)
        invariant wordsKnown == old(wordsKnown) + KnownCount(done)
        decreases |text| - i
      {
        ghost var t := NextToken(text[i..], records);
        ghost var words0, scores0, known0 := words, scores, wordsKnown;
        var next := SegmentAt(simps, i);
        TokensShift(text, records, done, i, next, t);
        CountersStep(old(words), words0, words, old(scores), scores0, scores, old(wordsKnown), known0, wordsKnown, done, t);
        done := done + [t];
        i := next;
      }
      assert Tokens(text, records) == done;
    }

    /** One iteration of segment's outer loop: the word the inner loop
        settles on at position i is added, and segmentation resumes after it. */
    method SegmentAt(simps: seq<string>, i: nat) returns (next: nat)
      requires simps == Simps(records) && i < |text|
      modifies this`words, this`scores, this`wordsKnown
      ensures var t := NextToken(text[i..], records);
        && next == i + |t.text|
        && words == old(words) + [t]
        && scores == old(scores) + Scores([t])
        && wordsKnown == old(wordsKnown) + KnownCount([t])
    {
      var found, w := LongestWordAt(simps, i);
      var t := AddWord(found, w);
      GreedyStep(text[i..], records, found, w, t);
      words := words + [t];
      next := i + |w|;
    }

    /** The inner loop of segment: tries the slices of length 4, 3, 2 and 1
        at position i (clamped to the end of the text) and stops at the first
        that is a vocabulary word. It finds one exactly when some slice of at
        most 4 characters at i is a word, and then w is the longest such;
        otherwise w is the single character at i. */
    method LongestWordAt(simps: seq<string>, i: nat) returns (found: bool, w: string)
      requires i < |text|
      ensures found <==> exists e :: i < e <= i + MaxWordLength && e <= |text| && text[i..e] in simps
      ensures found ==> w in simps && 1 <= |w| <= MaxWordLength && i + |w| <= |text| && w == text[i..i + |w|]
      ensures found ==> forall e :: i + |w| < e <= i + MaxWordLength && e <= |text| ==> text[i..e] !in simps
      ensures !found ==> w == text[i..i + 1]
      ensures found <==> 0 < MatchLength(text[i..], simps, MaxWordLength)
      ensures w == text[i..][..if found then MatchLength(text[i..], simps, MaxWordLength) else 1]
    {
      ghost var rest := text[i..];
      var len := MaxWordLength;
      found := false;
      w := [];
      while !found && len > 0
        invariant 0 <= len <= MaxWordLength && !found
        invariant MatchLength(rest, simps, MaxWordLength) == MatchLength(rest, simps, len)
        invariant len < MaxWordLength ==> w == rest[..Min(len + 1, |rest|)]
      {
        w := text[i..Min(i + len, |text|)];
        assert Min(i + len, |text|) == i + Min(len, |rest|);
        assert w == rest[..Min(len, |rest|)];
        if w in simps {
          found := true;
          break;
        }
        len := len - 1;
      }
      forall e | i <= e <= |text|
        ensures text[i..e] == rest[..e - i]
      {
      }
    }

    /** Builds the token for w: a vocabulary word with the first matching
        record (recording its level, and counting it when known), or else an
        unknown character or punctuation. */
    method AddWord(found: bool, w: string) returns (word: Token)
      requires found ==> w in Simps(records)
      modifies this`scores, this`wordsKnown
      ensures found ==>
        var fw := records[FirstIndex(records, w)];
        && word == Token(HskWord, w, Some(fw))
        && scores == old(scores) + [fw.level]
        && wordsKnown == old(wordsKnown) + (if fw.rel == "KNOWS" then 1 else 0)
      ensures !found ==>
        && word == Token(if HasPunct(w) then Punctuation else Char, w, None)
        && scores == old(scores) && wordsKnown == old(wordsKnown)
      ensures scores == old(scores) + Scores([word]) && wordsKnown == old(wordsKnown) + KnownCount([word])
    {
      if found {
        var fw := records[FirstIndex(records, w)];
        word := Token(HskWord, w, Some(fw));
        scores := scores + [fw.level];
        if fw.rel == "KNOWS" {
          wordsKnown := wordsKnown + 1;
        }
      } else {
        var kind := if HasPunct(w) then Punctuation else Char;
        word := Token(kind, w, None);
      }
    }
  }
}
