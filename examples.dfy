/** The end-to-end behaviour of the spell checker on small Hindi inputs. */
module Examples {
  import opened Outcomes
  import opened Text
  import opened EditDistance
  import opened SpellCheck

  /** The line and word numbers the examples use, in decimal. */
  lemma Numerals()
    ensures NatToString(1) == "1" && NatToString(2) == "2"
  {
  }

  /** The note for word 1 of line 1, "कोई", with no suggestion. */
  lemma EmptySuggestionNote(w: string)
    requires w == "कोई"
    ensures Annotation(1, 1, w, "") == "At Line: 1 Word No. 1: कोई -> "
  {
    Numerals();
  }

  /** With an empty corpus no entry can beat the sentinel: the suggestion is empty. */
  lemma EmptyCorpusExample(text: string)
    requires text == "कोई"
    ensures ProcessText(text, []) == Ok("At Line: 1 Word No. 1: कोई -> ")
  {
    SplitOnAbsent(text, '\n');
    assert IsWord(text);
    StripWordsOfWord(text);
    var note := Annotation(1, 1, text, "");
    EmptySuggestionNote(text);
    assert CorrectedTokens([text], 1, []) == [note];
    assert CorrectedLines([text], []) == [note];
  }

  /** "पनी" is one deletion away from "पानी". */
  lemma OneMissingVowelSign()
    ensures Lev("पानी", "पनी") == 1
  {
    var s, t := "पानी", "पनी";
    assert Dist(s, t, 0, 0) == 0;
    assert Dist(s, t, 1, 1) <= Dist(s, t, 0, 0) + Cost(s[0], t[0]) == 0;
    assert Dist(s, t, 2, 1) <= Dist(s, t, 1, 1) + 1;
    assert Dist(s, t, 3, 2) <= Dist(s, t, 2, 1) + Cost(s[2], t[1]);
    assert Dist(s, t, 4, 3) <= Dist(s, t, 3, 2) + Cost(s[3], t[2]);
    LevBounds(s, t);
  }

  /** Against the corpus ["घर", "पानी", "आम"], the entry nearest to "पनी" is "पानी". */
  lemma NearestToMisspelling(w: string, corpus: seq<string>)
    requires w == "पनी" && corpus == ["घर", "पानी", "आम"]
    ensures Suggestion(w, corpus) == "पानी"
  {
    LevDisjoint(corpus[0], w);
    LevDisjoint(corpus[2], w);
    OneMissingVowelSign();
    assert IsFirstNearest(w, corpus, 1);
    SuggestionIs(w, corpus, 1);
  }

  /** The note for word 2 of line 1, "पनी", with the suggestion "पानी". */
  lemma NoteExample()
    ensures Annotation(1, 2, "पनी", "पानी") == "At Line: 1 Word No. 2: पनी -> पानी"
  {
    Numerals();
  }

  /** "घर पनी" is one line of two words. */
  lemma TwoWordLine(text: string)
    requires text == "घर पनी"
    ensures SplitOn(text, '\n') == [text]
    ensures LineWords(text) == ["घर", "पनी"]
  {
    var ws := ["घर", "पनी"];
    assert JoinWith(ws, ' ') == text;
    SplitOnAbsent(text, '\n');
    assert IsWord(ws[0]) && IsWord(ws[1]);
    WordsOfStrip(text);
    WordsOfJoin(ws);
  }

  /** A known word is kept and an unknown one annotated with its nearest entry. */
  lemma OneLineExample(text: string, corpus: seq<string>)
    requires text == "घर पनी" && corpus == ["घर", "पानी", "आम"]
    ensures ProcessText(text, corpus) == Ok("घर" + " " + "At Line: 1 Word No. 2: पनी -> पानी")
  {
    var ws := ["घर", "पनी"];
    TwoWordLine(text);
    NearestToMisspelling(ws[1], corpus);
    NoteExample();
    var note := Annotation(1, 2, ws[1], "पानी");
    var tokens := CorrectedTokens(ws, 1, corpus);
    assert tokens[0] == ws[0] && tokens[1] == note;
    assert tokens == [ws[0], note];
    assert CorrectedLines([text], corpus) == [JoinWith(tokens, ' ')];
  }

  /** "घर\nपनी" is two lines of one word each. */
  lemma TwoOneWordLines(text: string)
    requires text == "घर\nपनी"
    ensures SplitOn(text, '\n') == ["घर", "पनी"]
  {
    var lines := ["घर", "पनी"];
    assert JoinWith(lines, '\n') == text;
    assert '\n' !in lines[0] && '\n' !in lines[1];
    SplitOnJoin(lines, '\n');
  }

  /** The note for word 1 of line 2, "पनी", with the suggestion "पानी". */
  lemma SecondLineNote()
    ensures Annotation(2, 1, "पनी", "पानी") == "At Line: 2 Word No. 1: पनी -> पानी"
  {
    Numerals();
  }

  /** Against the corpus ["घर", "पानी"], the entry nearest to "पनी" is "पानी". */
  lemma NearestOfTwo(w: string, corpus: seq<string>)
    requires w == "पनी" && corpus == ["घर", "पानी"]
    ensures Suggestion(w, corpus) == "पानी"
  {
    LevDisjoint(corpus[0], w);
    OneMissingVowelSign();
    assert IsFirstNearest(w, corpus, 1);
    SuggestionIs(w, corpus, 1);
  }

  /** Two one-word lines, the first word known and the second not. */
  lemma KnownThenUnknown(lines: seq<string>, corpus: seq<string>)
    requires |lines| == 2 && IsWord(lines[0]) && IsWord(lines[1])
    requires lines[0] in corpus && lines[1] !in corpus && "" !in corpus
    ensures ProcessLines(lines, corpus)
         == Ok(lines[0] + "\n" + Annotation(2, 1, lines[1], Suggestion(lines[1], corpus)))
  {
    OneWordPerLine(lines, corpus);
    var c := CorrectedLines(lines, corpus);
    var note := Annotation(2, 1, lines[1], Suggestion(lines[1], corpus));
    assert c[0] == lines[0] && c[1] == note;
    assert c[1..] == [note];
    assert JoinWith(c, '\n') == lines[0] + "\n" + note;
  }

  /** Line numbers count from 1 and the line feeds of the input are kept. */
  lemma TwoLineExample(text: string, corpus: seq<string>)
    requires text == "घर\nपनी" && corpus == ["घर", "पानी"]
    ensures ProcessText(text, corpus) == Ok("घर" + "\n" + "At Line: 2 Word No. 1: पनी -> पानी")
  {
    TwoOneWordLines(text);
    var lines := SplitOn(text, '\n');
    assert IsWord(lines[0]) && IsWord(lines[1]);
    assert lines[1] !in corpus && "" !in corpus by {
      assert |lines[1]| == 3 && |corpus[0]| == 2 && |corpus[1]| == 4;
    }
    KnownThenUnknown(lines, corpus);
    NearestOfTwo(lines[1], corpus);
    SecondLineNote();
  }
}
