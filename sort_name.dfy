/** The roster sort key of a student: "First Middle Last" becomes "Last, First Middle"
    (`generateSortName` in the student import route). */
module SortName {
  import opened Text

  /** Trim the full name, split it on single spaces, drop the empty pieces; no piece
      gives "", one piece gives that piece, several give the last piece, ", " and the
      preceding pieces joined by single spaces. */
  function GenerateSortName(fullName: string): string {
    var parts := Words(Trim(fullName));
    if |parts| == 0 then []
    else if |parts| == 1 then parts[0]
    else parts[|parts| - 1] + ", " + JoinWithSpaces(parts[..|parts| - 1])
  }

  /** A string that starts with something other than a space has at least one word. */
  lemma {:induction false} WordsOfLeadingNonSpace(t: string)
    requires t != [] && t[0] != ' '
    ensures Words(t) != []
  {
    var pieces := SplitOnSpace(t);
    assert pieces[0] != [];
  }

  /** The key is empty exactly when the name is empty or whitespace only. */
  lemma {:induction false} SortNameEmptyIff(fullName: string)
    ensures GenerateSortName(fullName) == [] <==> AllWhitespace(fullName)
  {
    TrimEmptyIff(fullName);
    var t := Trim(fullName);
    if !AllWhitespace(fullName) {
      TrimShape(fullName);
      WordsOfLeadingNonSpace(t);
    }
  }

  /** One word, whatever whitespace surrounds it, is its own key. */
  lemma {:induction false} SortNameOfSingleWord(pre: string, word: string, post: string)
    requires AllWhitespace(pre) && AllWhitespace(post)
    requires IsWord(word) && Trimmed(word)
    ensures GenerateSortName(pre + word + post) == word
  {
    TrimPadding(pre, word, post);
    TrimOfTrimmed(word);
    WordsOfWord(word);
  }

  /** Two or more words joined by single spaces: the last word, a comma and a space,
      then the other words in their order. */
  lemma {:induction false} SortNameOfWords(pre: string, words: seq<string>, post: string)
    requires AllWhitespace(pre) && AllWhitespace(post)
    requires |words| >= 2
    requires forall i :: 0 <= i < |words| ==> IsWord(words[i])
    requires Trimmed(JoinWithSpaces(words))
    ensures GenerateSortName(pre + JoinWithSpaces(words) + post)
            == words[|words| - 1] + ", " + JoinWithSpaces(words[..|words| - 1])
  {
    var name := JoinWithSpaces(words);
    TrimPadding(pre, name, post);
    TrimOfTrimmed(name);
    WordsOfJoin(words);
  }

  /** Inserting a space beside a space leaves the key unchanged, so runs of spaces
      between words count as one. */
  lemma {:induction false} SortNameIgnoresSpaceRuns(a: string, b: string)
    ensures GenerateSortName(a + "  " + b) == GenerateSortName(a + " " + b)
  {
    TrimAroundGap(a, " ", b);
    TrimAroundGap(a, "  ", b);
    if !AllWhitespace(a) && !AllWhitespace(b) {
      DoubleSpaceWords(TrimStart(a), TrimEnd(b));
    }
  }

  /** Trimming the name first changes nothing: the stored (trimmed) name and the raw
      name give the same key. */
  lemma {:induction false} SortNameOfTrimmedName(fullName: string)
    ensures GenerateSortName(Trim(fullName)) == GenerateSortName(fullName)
  {
    TrimShape(fullName);
    TrimOfTrimmed(Trim(fullName));
  }

  /** The examples documented beside `generateSortName`: "João Silva" gives
      "Silva, João" and "Maria" gives "Maria". */
  lemma {:induction false} DocumentedTwoWordExample(name: string)
    requires name == "João Silva"
    ensures GenerateSortName(name) == "Silva, João"
  {
    var words := ["João", "Silva"];
    assert name == [] + JoinWithSpaces(words) + [];
    assert words[..1] == ["João"];
    SortNameOfWords([], words, []);
  }

  lemma {:induction false} DocumentedOneWordExample(name: string)
    requires name == "Maria"
    ensures GenerateSortName(name) == "Maria"
  {
    assert name == [] + "Maria" + [];
    SortNameOfSingleWord([], "Maria", []);
  }

  /** A tab is not a separator: two words joined by a tab stay one word, while the
      space before the last word separates. */
  lemma {:induction false} TabsStayInsideWords(a: string, b: string, c: string)
    requires IsWord(a) && IsWord(b) && IsWord(c) && Trimmed(a) && Trimmed(c)
    ensures GenerateSortName(a + "\t" + b + " " + c) == c + ", " + a + "\t" + b
  {
    var first := a + "\t" + b;
    var words := [first, c];
    assert JoinWithSpaces(words) == first + " " + c by {
      assert words[1..] == [c];
    }
    var joined := first + " " + c;
    assert joined[0] == a[0] && joined[|joined| - 1] == c[|c| - 1];
    assert a + "\t" + b + " " + c == [] + joined + [];
    assert words[..1] == [first];
    SortNameOfWords([], words, []);
  }

  /** A blank name gives an empty key. */
  lemma {:induction false} BlankExample(blank: string)
    requires blank == " \t "
    ensures GenerateSortName(blank) == []
  {
    assert AllWhitespace(blank[3..]);
    assert AllWhitespace(blank[2..]);
    assert AllWhitespace(blank[1..]);
    SortNameEmptyIff(blank);
  }

  /** A name padded with spaces loses them. */
  lemma {:induction false} PaddedExample(padded: string)
    requires padded == "  Maria  "
    ensures GenerateSortName(padded) == "Maria"
  {
    assert padded == "  " + "Maria" + "  ";
    SortNameOfSingleWord("  ", "Maria", "  ");
  }
}
