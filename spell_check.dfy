/** `get_correct_word` and `process_input_text` (app.py): the nearest-entry search over
    the corpus and the line-by-line annotation of a text. */
module SpellCheck {
  import opened Outcomes
  import opened Text
  import opened EditDistance

  /** The starting value of `min_dis`: only entries at a smaller distance are ever chosen. */
  const Sentinel: nat := 100

  /** `levenshtein_distance(entry, word)` raises for some entry of a non-empty corpus
      exactly when the word or one of the entries is empty. */
  predicate SearchRaises(word: string, corpus: seq<string>)
  {
    |corpus| > 0 && (word == "" || "" in corpus)
  }

  /** `corpus[k]` is at the smallest distance from `word`, and every earlier entry is
      strictly farther. */
  predicate IsFirstNearest(word: string, corpus: seq<string>, k: nat)
  {
    k < |corpus|
    && (forall j :: 0 <= j < |corpus| ==> Lev(corpus[k], word) <= Lev(corpus[j], word))
    && (forall j :: 0 <= j < k ==> Lev(corpus[j], word) > Lev(corpus[k], word))
  }

  /** The index of the earliest entry of the corpus at the smallest distance from `word`. */
  function FirstNearest(word: string, corpus: seq<string>): (k: nat)
    requires |corpus| > 0
    ensures IsFirstNearest(word, corpus, k)
    decreases |corpus|
  {
    if |corpus| == 1 then 0
    else
      var k := FirstNearest(word, corpus[..|corpus| - 1]);
      if Lev(corpus[k], word) > Lev(corpus[|corpus| - 1], word) then |corpus| - 1 else k
  }

  /** The suggestion for `word`: the earliest nearest entry if it is closer than the
      sentinel, and `""` otherwise (in particular for an empty corpus). */
  function Suggestion(word: string, corpus: seq<string>): (r: string)
    ensures r == "" || r in corpus
  {
    if |corpus| == 0 then ""
    else
      var k := FirstNearest(word, corpus);
      if Lev(corpus[k], word) < Sentinel then corpus[k] else ""
  }

  /** The value `min_dis` holds after a scan of `entries`: the smallest distance if it is
      below the sentinel, and the sentinel otherwise. */
  function BestDistance(word: string, entries: seq<string>): nat
  {
    if |entries| == 0 then Sentinel
    else
      var d := Lev(entries[FirstNearest(word, entries)], word);
      if d < Sentinel then d else Sentinel
  }

  /** One step of the scan: a further entry becomes the suggestion exactly when it is
      strictly closer than everything seen so far and than the sentinel. */
  lemma ScanStep(word: string, entries: seq<string>, e: string)
    ensures BestDistance(word, entries + [e])
         == if BestDistance(word, entries) > Lev(e, word) then Lev(e, word) else BestDistance(word, entries)
    ensures Suggestion(word, entries + [e])
         == if BestDistance(word, entries) > Lev(e, word) then e else Suggestion(word, entries)
  {
    var es := entries + [e];
    assert es[..|es| - 1] == entries;
  }

  /** What `get_correct_word(word, corpus)` returns or raises. */
  function CorrectWord(word: string, corpus: seq<string>): (r: Result<string>)
    ensures r.Err? ==> r.error == UnboundLocalError("row")
    ensures r.Ok? ==> r.value == "" || r.value in corpus
    ensures |corpus| == 0 ==> r == Ok("")
  {
    if SearchRaises(word, corpus) then Err(UnboundLocalError("row")) else Ok(Suggestion(word, corpus))
  }

  /** `get_correct_word(word, corpus)`: one pass over the corpus keeping the smallest
      distance seen (`min_dis`, from the sentinel) and its entry; a later entry replaces
      the best only when strictly closer. */
  method GetCorrectWord(word: string, corpus: seq<string>) returns (r: Result<string>)
    ensures r == CorrectWord(word, corpus)
  {
    var minDis: nat := Sentinel;
    var correctWord := "";
    for i := 0 to |corpus|
      invariant word != "" || i == 0
      invariant "" !in corpus[..i]
      invariant correctWord == Suggestion(word, corpus[..i])
      invariant minDis == BestDistance(word, corpus[..i])
    {
      var curDis := LevenshteinDistance(corpus[i], word);
      if curDis.Err? {
        return Err(curDis.error);
      }
      assert corpus[..i + 1] == corpus[..i] + [corpus[i]];
      ScanStep(word, corpus[..i], corpus[i]);
      if minDis > curDis.value {
        minDis := curDis.value;
        correctWord := corpus[i];
      }
    }
    assert corpus[..|corpus|] == corpus;
    r := Ok(correctWord);
  }

  /** The suggestion is the earliest entry at the minimum distance when that distance is
      below the sentinel, and `""` when no entry is (in particular for an empty corpus). */
  lemma SuggestionIsFirstNearest(word: string, corpus: seq<string>)
    ensures (exists j :: 0 <= j < |corpus| && Lev(corpus[j], word) < Sentinel)
        ==> exists k: nat :: IsFirstNearest(word, corpus, k) && Lev(corpus[k], word) < Sentinel
                        && Suggestion(word, corpus) == corpus[k]
    ensures (forall j :: 0 <= j < |corpus| ==> Lev(corpus[j], word) >= Sentinel)
        ==> Suggestion(word, corpus) == ""
  {
    if |corpus| > 0 {
      var k := FirstNearest(word, corpus);
      assert IsFirstNearest(word, corpus, k);
    }
  }

  /** At most one index is the earliest nearest entry, so the suggestion is determined. */
  lemma FirstNearestUnique(word: string, corpus: seq<string>, k1: nat, k2: nat)
    requires IsFirstNearest(word, corpus, k1) && IsFirstNearest(word, corpus, k2)
    ensures k1 == k2
  {
    assert Lev(corpus[k1], word) <= Lev(corpus[k2], word) && Lev(corpus[k2], word) <= Lev(corpus[k1], word);
  }

  /** A suggestion is pinned down by any entry that is the earliest nearest one and closer
      than the sentinel. */
  lemma SuggestionIs(word: string, corpus: seq<string>, k: nat)
    requires IsFirstNearest(word, corpus, k) && Lev(corpus[k], word) < Sentinel
    ensures Suggestion(word, corpus) == corpus[k]
  {
    FirstNearestUnique(word, corpus, k, FirstNearest(word, corpus));
  }

  /** `line.strip().split()`. */
  function LineWords(line: string): seq<string>
  {
    Words(Strip(line))
  }

  /** The note emitted for a word missing from the corpus. */
  function Annotation(lineNum: nat, wordNum: nat, word: string, suggestion: string): string
  {
    "At Line: " + NatToString(lineNum) + " Word No. " + NatToString(wordNum) + ": "
    + word + " -> " + suggestion
  }

  /** What the word number `wordNum` of line `lineNum` becomes: itself if it is in the
      corpus, its annotation otherwise. */
  function CorrectedToken(word: string, lineNum: nat, wordNum: nat, corpus: seq<string>): string
  {
    if word in corpus then word else Annotation(lineNum, wordNum, word, Suggestion(word, corpus))
  }

  /** The corrected tokens of one line, in order, numbered from 1. */
  function CorrectedTokens(words: seq<string>, lineNum: nat, corpus: seq<string>): seq<string>
  {
    seq(|words|, j requires 0 <= j < |words| => CorrectedToken(words[j], lineNum, j + 1, corpus))
  }

  /** The corrected lines, in order, numbered from 1, each joined with single spaces. */
  function CorrectedLines(lines: seq<string>, corpus: seq<string>): seq<string>
  {
    seq(|lines|, i requires 0 <= i < |lines| => JoinWith(CorrectedTokens(LineWords(lines[i]), i + 1, corpus), ' '))
  }

  /** Extending the words of a line by one extends its corrected tokens by one. */
  lemma CorrectedTokensSnoc(words: seq<string>, j: nat, lineNum: nat, corpus: seq<string>)
    requires j < |words|
    ensures CorrectedTokens(words[..j + 1], lineNum, corpus)
         == CorrectedTokens(words[..j], lineNum, corpus) + [CorrectedToken(words[j], lineNum, j + 1, corpus)]
  {
  }

  /** Extending the lines by one extends the corrected lines by one. */
  lemma CorrectedLinesSnoc(lines: seq<string>, i: nat, corpus: seq<string>)
    requires i < |lines|
    ensures CorrectedLines(lines[..i + 1], corpus)
         == CorrectedLines(lines[..i], corpus) + [JoinWith(CorrectedTokens(LineWords(lines[i]), i + 1, corpus), ' ')]
  {
  }

  /** Every one of `words` is in the corpus. */
  predicate AllKnown(words: seq<string>, corpus: seq<string>)
  {
    forall k :: 0 <= k < |words| ==> words[k] in corpus
  }

  /** Some word of some line is missing from the corpus. */
  predicate HasUnknownWord(lines: seq<string>, corpus: seq<string>)
  {
    exists i :: 0 <= i < |lines| && !AllKnown(LineWords(lines[i]), corpus)
  }

  /** A further line with only known words adds no unknown word. */
  lemma KnownLineSnoc(lines: seq<string>, i: nat, corpus: seq<string>)
    requires i < |lines|
    requires !HasUnknownWord(lines[..i], corpus) && AllKnown(LineWords(lines[i]), corpus)
    ensures !HasUnknownWord(lines[..i + 1], corpus)
  {
    assert lines[..i + 1] == lines[..i] + [lines[i]];
  }

  /** What `process_input_text(text, corpus)` returns or raises: a word missing from a
      corpus that holds an empty entry makes the search raise; otherwise the corrected
      lines joined with line feeds. */
  function ProcessText(text: string, corpus: seq<string>): Result<string>
  {
    ProcessLines(SplitOn(text, '\n'), corpus)
  }

  /** The same, for a text already split into its lines. */
  function ProcessLines(lines: seq<string>, corpus: seq<string>): Result<string>
  {
    if "" in corpus && HasUnknownWord(lines, corpus) then Err(UnboundLocalError("row"))
    else Ok(JoinWith(CorrectedLines(lines, corpus), '\n'))
  }

  /** `process_input_text(input_text, corpus)`: for each line and each of its words, keep
      the word if the corpus has it and otherwise search for a suggestion and emit the
      annotation; join words with a space and lines with a line feed. */
  method ProcessInputText(inputText: string, corpus: seq<string>) returns (r: Result<string>)
    ensures r == ProcessText(inputText, corpus)
  {
    var correctedText: seq<string> := [];
    var lines := SplitOn(inputText, '\n');
    for i := 0 to |lines|
      invariant correctedText == CorrectedLines(lines[..i], corpus)
      invariant "" in corpus ==> !HasUnknownWord(lines[..i], corpus)
    {
      var lineNum := i + 1;
      var words := Words(Strip(lines[i]));
      var correctedLine: seq<string> := [];
      for j := 0 to |words|
        invariant correctedLine == CorrectedTokens(words[..j], lineNum, corpus)
        invariant "" in corpus ==> AllKnown(words[..j], corpus)
      {
        var wordNum := j + 1;
        var word := words[j];
        if word !in corpus {
          var corrected := GetCorrectWord(word, corpus);
          if corrected.Err? {
            assert !AllKnown(LineWords(lines[i]), corpus);
            return Err(corrected.error);
          }
          correctedLine := correctedLine + [Annotation(lineNum, wordNum, word, corrected.value)];
        } else {
          correctedLine := correctedLine + [word];
        }
        CorrectedTokensSnoc(words, j, lineNum, corpus);
      }
      assert words[..|words|] == words;
      correctedText := correctedText + [JoinWith(correctedLine, ' ')];
      CorrectedLinesSnoc(lines, i, corpus);
      if "" in corpus {
        KnownLineSnoc(lines, i, corpus);
      }
    }
    assert lines[..|lines|] == lines;
    r := Ok(JoinWith(correctedText, '\n'));
  }

  /** A suggestion made for a word missing from the corpus is never the word itself, so it
      is at distance at least one: the distance-zero case cannot arise from the search. */
  lemma SuggestionOfUnknownWord(word: string, corpus: seq<string>)
    requires word !in corpus
    requires Suggestion(word, corpus) != ""
    ensures Lev(Suggestion(word, corpus), word) >= 1
  {
    LevZeroIff(Suggestion(word, corpus), word);
  }

  /** The empty text comes back empty, whatever the corpus: it is one empty line. */
  lemma ProcessTextEmpty(corpus: seq<string>)
    ensures ProcessText("", corpus) == Ok("")
  {
    assert SplitOn("", '\n') == [""];
    assert LineWords("") == [];
    assert !HasUnknownWord([""], corpus);
    assert CorrectedLines([""], corpus) == [""];
  }

  /** A word of `str.split()` holds no line feed. */
  lemma WordHasNoNewline(w: string)
    requires IsWord(w)
    ensures '\n' !in w
  {
    assert IsWhitespace('\n');
  }

  /** A corrected token holds no line feed when no corpus entry does. */
  lemma CorrectedTokenHasNoNewline(word: string, lineNum: nat, wordNum: nat, corpus: seq<string>)
    requires IsWord(word)
    requires forall e :: e in corpus ==> '\n' !in e
    ensures '\n' !in CorrectedToken(word, lineNum, wordNum, corpus)
  {
    WordHasNoNewline(word);
    var l, w := NatToString(lineNum), NatToString(wordNum);
    assert '\n' !in l && '\n' !in w;
  }

  /** A corrected line holds no line feed when no corpus entry does. */
  lemma CorrectedLineHasNoNewline(line: string, lineNum: nat, corpus: seq<string>)
    requires forall e :: e in corpus ==> '\n' !in e
    ensures '\n' !in JoinWith(CorrectedTokens(LineWords(line), lineNum, corpus), ' ')
  {
    var words := LineWords(line);
    var tokens := CorrectedTokens(words, lineNum, corpus);
    forall j | 0 <= j < |tokens|
      ensures '\n' !in tokens[j]
    {
      CorrectedTokenHasNoNewline(words[j], lineNum, j + 1, corpus);
    }
    JoinWithout(tokens, ' ', '\n');
  }

  /** The output has exactly as many lines as the input, and its line number `i` is the
      corrected line number `i` of the input, provided no corpus entry holds a line feed
      (as none does when the corpus is read one stripped line per entry). */
  lemma ProcessTextLines(text: string, corpus: seq<string>)
    requires forall e :: e in corpus ==> '\n' !in e
    requires ProcessText(text, corpus).Ok?
    ensures SplitOn(ProcessText(text, corpus).value, '\n') == CorrectedLines(SplitOn(text, '\n'), corpus)
    ensures |SplitOn(ProcessText(text, corpus).value, '\n')| == |SplitOn(text, '\n')|
  {
    ProcessLinesLines(SplitOn(text, '\n'), corpus);
  }

  /** `ProcessTextLines` for a text already split into lines. */
  lemma ProcessLinesLines(lines: seq<string>, corpus: seq<string>)
    requires |lines| >= 1
    requires forall e :: e in corpus ==> '\n' !in e
    requires ProcessLines(lines, corpus).Ok?
    ensures SplitOn(ProcessLines(lines, corpus).value, '\n') == CorrectedLines(lines, corpus)
  {
    var out := CorrectedLines(lines, corpus);
    forall i | 0 <= i < |out|
      ensures '\n' !in out[i]
    {
      CorrectedLineHasNoNewline(lines[i], i + 1, corpus);
    }
    SplitOnJoin(out, '\n');
  }

  /** A text of one word per line is corrected token by token, each being word 1 of its
      line. */
  lemma OneWordPerLine(lines: seq<string>, corpus: seq<string>)
    requires forall i :: 0 <= i < |lines| ==> IsWord(lines[i])
    ensures |CorrectedLines(lines, corpus)| == |lines|
    ensures forall i :: 0 <= i < |lines| ==> CorrectedLines(lines, corpus)[i] == CorrectedToken(lines[i], i + 1, 1, corpus)
  {
    forall i | 0 <= i < |lines|
      ensures CorrectedLines(lines, corpus)[i] == CorrectedToken(lines[i], i + 1, 1, corpus)
    {
      StripWordsOfWord(lines[i]);
      assert CorrectedTokens([lines[i]], i + 1, corpus) == [CorrectedToken(lines[i], i + 1, 1, corpus)];
    }
  }

  /** A line whose words are all in the corpus comes back as those words. */
  lemma CorrectedTokensAllKnown(words: seq<string>, lineNum: nat, corpus: seq<string>)
    requires AllKnown(words, corpus)
    ensures CorrectedTokens(words, lineNum, corpus) == words
  {
  }

  /** Each line with its words re-joined by single spaces. */
  function NormalisedLines(lines: seq<string>): seq<string>
  {
    seq(|lines|, i requires 0 <= i < |lines| => JoinWith(LineWords(lines[i]), ' '))
  }

  /** A text whose words are all in the corpus comes back with only its whitespace
      normalised (words re-joined by single spaces, line feeds kept), and no search made,
      so even a corpus holding an empty entry does not make it raise. */
  lemma ProcessLinesAllKnown(lines: seq<string>, corpus: seq<string>)
    requires !HasUnknownWord(lines, corpus)
    ensures ProcessLines(lines, corpus) == Ok(JoinWith(NormalisedLines(lines), '\n'))
  {
    forall i | 0 <= i < |lines|
      ensures CorrectedTokens(LineWords(lines[i]), i + 1, corpus) == LineWords(lines[i])
    {
      CorrectedTokensAllKnown(LineWords(lines[i]), i + 1, corpus);
    }
    assert CorrectedLines(lines, corpus) == NormalisedLines(lines);
  }

  /** A correctly spelled text whose words are already separated by single spaces comes
      back unchanged. */
  lemma ProcessTextFixpoint(text: string, corpus: seq<string>)
    requires !HasUnknownWord(SplitOn(text, '\n'), corpus)
    requires NormalisedLines(SplitOn(text, '\n')) == SplitOn(text, '\n')
    ensures ProcessText(text, corpus) == Ok(text)
  {
    ProcessLinesAllKnown(SplitOn(text, '\n'), corpus);
  }
}
