/** String primitives the route handlers rely on: JavaScript's `String.prototype.trim`,
    `split(' ')` followed by dropping empty pieces, `join(' ')`, and the order used to
    compare strings (code-point lexicographic order). */
module Text {

  /** The characters JavaScript's `trim` removes: the WhiteSpace and LineTerminator
      code points of ECMAScript (tab, line feed, vertical tab, form feed, carriage
      return, space, no-break space, the Unicode space separators, line and paragraph
      separator, byte order mark). */
  predicate IsWhitespace(c: char) {
    c == '\t' || c == '\n' || c == '\U{B}' || c == '\U{C}' || c == '\r' || c == ' '
    || c == '\U{A0}' || c == '\U{1680}' || '\U{2000}' <= c <= '\U{200A}'
    || c == '\U{2028}' || c == '\U{2029}' || c == '\U{202F}' || c == '\U{205F}'
    || c == '\U{3000}' || c == '\U{FEFF}'
  }

  predicate AllWhitespace(s: string) {
    s == [] || (IsWhitespace(s[0]) && AllWhitespace(s[1..]))
  }

  /** `s` has no whitespace at either end (the empty string qualifies). */
  predicate Trimmed(s: string) {
    s == [] || (!IsWhitespace(s[0]) && !IsWhitespace(s[|s| - 1]))
  }

  lemma {:induction false} AllWhitespaceConcat(x: string, y: string)
    ensures AllWhitespace(x + y) <==> AllWhitespace(x) && AllWhitespace(y)
  {
    if x == [] {
      assert x + y == y;
    } else {
      assert (x + y)[0] == x[0] && (x + y)[1..] == x[1..] + y;
      AllWhitespaceConcat(x[1..], y);
    }
  }

  /** JavaScript's `s.trimStart()`: drops the leading whitespace. */
  function TrimStart(s: string): string {
    if s != [] && IsWhitespace(s[0]) then TrimStart(s[1..]) else s
  }

  /** JavaScript's `s.trimEnd()`: drops the trailing whitespace. */
  function TrimEnd(s: string): string {
    if s != [] && IsWhitespace(s[|s| - 1]) then TrimEnd(s[..|s| - 1]) else s
  }

  /** `trimStart` keeps a suffix of its input that does not start with whitespace,
      and everything it cut off is whitespace. */
  lemma {:induction false} TrimStartSpec(s: string)
    ensures |TrimStart(s)| <= |s| && TrimStart(s) == s[|s| - |TrimStart(s)|..]
    ensures AllWhitespace(s[..|s| - |TrimStart(s)|])
    ensures TrimStart(s) == [] || !IsWhitespace(TrimStart(s)[0])
  {
    if s != [] && IsWhitespace(s[0]) {
      var t, r := s[1..], TrimStart(s[1..]);
      assert TrimStart(s) == r;
      TrimStartSpec(t);
      var k := |s| - |r|;
      assert s[k..] == t[k - 1..];
      var cut := s[..k];
      assert cut != [] && cut[0] == s[0] && cut[1..] == t[..k - 1];
      assert AllWhitespace(cut);
    }
  }

  /** `trimEnd` keeps a prefix of its input that does not end with whitespace, and
      everything it cut off is whitespace. */
  lemma {:induction false} TrimEndSpec(s: string)
    ensures |TrimEnd(s)| <= |s| && TrimEnd(s) == s[..|TrimEnd(s)|]
    ensures AllWhitespace(s[|TrimEnd(s)|..])
    ensures TrimEnd(s) == [] || !IsWhitespace(TrimEnd(s)[|TrimEnd(s)| - 1])
  {
    if s != [] && IsWhitespace(s[|s| - 1]) {
      var init, c := s[..|s| - 1], s[|s| - 1];
      TrimEndSpec(init);
      var r := TrimEnd(init);
      assert AllWhitespace([c]) by { assert [c][1..] == []; }
      AllWhitespaceConcat(init[|r|..], [c]);
      assert s[|r|..] == init[|r|..] + [c];
    }
  }

  /** JavaScript's `s.trim()`. */
  function Trim(s: string): string {
    TrimEnd(TrimStart(s))
  }

  /** The result of `trim` is a contiguous part of its input with no whitespace at
      either end, and only whitespace was cut away. */
  lemma {:induction false} TrimShape(s: string)
    ensures Trimmed(Trim(s))
    ensures exists i :: 0 <= i <= |s| - |Trim(s)| && Trim(s) == s[i..i + |Trim(s)|]
                        && AllWhitespace(s[..i]) && AllWhitespace(s[i + |Trim(s)|..])
  {
    var a := TrimStart(s);
    var r := TrimEnd(a);
    TrimStartSpec(s);
    TrimEndSpec(a);
    var i := |s| - |a|;
    assert s[i..i + |r|] == a[..|r|];
    assert s[i + |r|..] == a[|r|..];
    if r != [] {
      assert r[0] == a[0];
    }
  }

  lemma {:induction false} TrimStartOfTrimmed(s: string)
    requires s == [] || !IsWhitespace(s[0])
    ensures TrimStart(s) == s
  {
  }

  /** Cutting leading whitespace from a concatenation: the left part is cut away
      entirely when it is all whitespace, otherwise the right part is untouched. */
  lemma {:induction false} TrimStartConcat(x: string, y: string)
    ensures TrimStart(x + y) == if AllWhitespace(x) then TrimStart(y) else TrimStart(x) + y
  {
    if x == [] {
      assert x + y == y;
    } else {
      assert (x + y)[0] == x[0] && (x + y)[1..] == x[1..] + y;
      if IsWhitespace(x[0]) {
        TrimStartConcat(x[1..], y);
      }
    }
  }

  lemma {:induction false} AllWhitespaceLast(y: string)
    requires y != []
    ensures AllWhitespace(y) <==> AllWhitespace(y[..|y| - 1]) && IsWhitespace(y[|y| - 1])
  {
    var c := y[|y| - 1];
    assert y == y[..|y| - 1] + [c];
    AllWhitespaceConcat(y[..|y| - 1], [c]);
    assert [c][1..] == [];
  }

  /** Cutting trailing whitespace from a concatenation, the mirror of TrimStartConcat. */
  lemma {:induction false} TrimEndConcat(x: string, y: string)
    ensures TrimEnd(x + y) == if AllWhitespace(y) then TrimEnd(x) else x + TrimEnd(y)
  {
    if y == [] {
      assert x + y == x;
    } else {
      var n := |y| - 1;
      AllWhitespaceLast(y);
      assert (x + y)[|x + y| - 1] == y[n];
      assert (x + y)[..|x + y| - 1] == x + y[..n];
      if IsWhitespace(y[n]) {
        TrimEndConcat(x, y[..n]);
      }
    }
  }

  lemma {:induction false} TrimGapAfterBlank(a: string, gap: string, b: string)
    requires AllWhitespace(a) && AllWhitespace(gap)
    ensures Trim(a + gap + b) == Trim(b)
  {
    AllWhitespaceConcat(a, gap);
    TrimStartConcat(a + gap, b);
  }

  lemma {:induction false} TrimGapBeforeBlank(a: string, gap: string, b: string)
    requires !AllWhitespace(a) && AllWhitespace(gap) && AllWhitespace(b)
    ensures Trim(a + gap + b) == Trim(a)
  {
    var rest := gap + b;
    assert a + gap + b == a + rest;
    TrimStartConcat(a, rest);
    AllWhitespaceConcat(gap, b);
    TrimEndConcat(TrimStart(a), rest);
  }

  lemma {:induction false} TrimGapBetweenWords(a: string, gap: string, b: string)
    requires !AllWhitespace(a) && AllWhitespace(gap) && !AllWhitespace(b)
    ensures Trim(a + gap + b) == TrimStart(a) + gap + TrimEnd(b)
  {
    var rest := gap + b;
    assert a + gap + b == a + rest;
    TrimStartConcat(a, rest);
    var front := TrimStart(a);
    AllWhitespaceConcat(gap, b);
    TrimEndConcat(front, rest);
    TrimEndConcat(gap, b);
    assert front + (gap + TrimEnd(b)) == front + gap + TrimEnd(b);
  }

  /** How `trim` treats a string with a whitespace gap in it: the gap survives only
      when there is something other than whitespace on both sides. */
  lemma {:induction false} TrimAroundGap(a: string, gap: string, b: string)
    requires AllWhitespace(gap)
    ensures Trim(a + gap + b) == if AllWhitespace(a) then Trim(b)
                                 else if AllWhitespace(b) then Trim(a)
                                 else TrimStart(a) + gap + TrimEnd(b)
  {
    if AllWhitespace(a) {
      TrimGapAfterBlank(a, gap, b);
    } else if AllWhitespace(b) {
      TrimGapBeforeBlank(a, gap, b);
    } else {
      TrimGapBetweenWords(a, gap, b);
    }
  }

  lemma {:induction false} TrimOfBlank(x: string)
    requires AllWhitespace(x)
    ensures Trim(x) == []
  {
    assert x + [] == x;
    TrimStartConcat(x, []);
  }

  /** Whitespace padding around a string does not survive `trim`. */
  lemma {:induction false} TrimPadding(pre: string, s: string, post: string)
    requires AllWhitespace(pre) && AllWhitespace(post)
    ensures Trim(pre + s + post) == Trim(s)
  {
    assert pre + s + post == pre + [] + (s + post);
    TrimGapAfterBlank(pre, [], s + post);
    assert s + post == s + [] + post;
    TrimAroundGap(s, [], post);
    if AllWhitespace(s) {
      TrimOfBlank(s);
      TrimOfBlank(post);
    }
  }

  /** A string with no whitespace at its ends is left alone by `trim`. */
  lemma {:induction false} TrimOfTrimmed(s: string)
    requires Trimmed(s)
    ensures Trim(s) == s
  {
    TrimStartOfTrimmed(s);
  }

  /** `trim` gives the empty string exactly when its input is all whitespace. */
  lemma {:induction false} TrimEmptyIff(s: string)
    ensures Trim(s) == [] <==> AllWhitespace(s)
  {
    TrimShape(s);
    if AllWhitespace(s) {
      TrimOfBlank(s);
    } else if Trim(s) == [] {
      var i :| 0 <= i <= |s| && AllWhitespace(s[..i]) && AllWhitespace(s[i..]);
      assert s == s[..i] + s[i..];
      AllWhitespaceConcat(s[..i], s[i..]);
    }
  }

  // ---------------------------------------------------------------------------
  // split(' ') and the filter that drops empty pieces

  /** JavaScript's `s.split(' ')`: the pieces between single space characters, so
      two adjacent spaces yield an empty piece, and only ' ' separates (tabs and
      other whitespace stay inside pieces). */
  function SplitOnSpace(s: string): (r: seq<string>)
    ensures |r| >= 1
    ensures forall i :: 0 <= i < |r| ==> ' ' !in r[i]
  {
    if s == [] then [[]]
    else if s[0] == ' ' then [[]] + SplitOnSpace(s[1..])
    else
      var rest := SplitOnSpace(s[1..]);
      [[s[0]] + rest[0]] + rest[1..]
  }

  /** `pieces.filter((p) => p.length > 0)`. */
  function NonEmpty(pieces: seq<string>): (r: seq<string>)
    ensures forall i :: 0 <= i < |r| ==> r[i] != [] && r[i] in pieces
    ensures |r| <= |pieces|
  {
    if pieces == [] then []
    else if pieces[0] == [] then NonEmpty(pieces[1..])
    else [pieces[0]] + NonEmpty(pieces[1..])
  }

  /** The words of `s`: its space-separated pieces with empty pieces dropped. */
  function Words(s: string): (r: seq<string>)
    ensures forall i :: 0 <= i < |r| ==> IsWord(r[i])
  {
    NonEmpty(SplitOnSpace(s))
  }

  /** `words.join(' ')`. */
  function JoinWithSpaces(words: seq<string>): string {
    if words == [] then []
    else if |words| == 1 then words[0]
    else words[0] + " " + JoinWithSpaces(words[1..])
  }

  predicate IsWord(w: string) {
    w != [] && ' ' !in w
  }

  lemma {:induction false} NonEmptyConcat(x: seq<string>, y: seq<string>)
    ensures NonEmpty(x + y) == NonEmpty(x) + NonEmpty(y)
  {
    if x == [] {
      assert x + y == y;
    } else {
      assert (x + y)[1..] == x[1..] + y;
      NonEmptyConcat(x[1..], y);
    }
  }

  /** A space splits the string into the pieces of each side. */
  lemma {:induction false} SplitAtSpace(a: string, b: string)
    ensures SplitOnSpace(a + " " + b) == SplitOnSpace(a) + SplitOnSpace(b)
  {
    if a == [] {
      assert a + " " + b == " " + b;
      assert (" " + b)[1..] == b;
    } else {
      assert (a + " " + b)[1..] == a[1..] + " " + b;
      SplitAtSpace(a[1..], b);
    }
  }

  /** The words on both sides of a space are the words of each side. */
  lemma {:induction false} WordsAtSpace(a: string, b: string)
    ensures Words(a + " " + b) == Words(a) + Words(b)
  {
    SplitAtSpace(a, b);
    NonEmptyConcat(SplitOnSpace(a), SplitOnSpace(b));
  }

  /** A string without spaces is one piece. */
  lemma {:induction false} SplitWithoutSpace(s: string)
    requires ' ' !in s
    ensures SplitOnSpace(s) == [s]
  {
    if s != [] {
      SplitWithoutSpace(s[1..]);
      assert [s[0]] + s[1..] == s;
    }
  }

  lemma {:induction false} WordsOfWord(w: string)
    requires IsWord(w)
    ensures Words(w) == [w]
  {
    SplitWithoutSpace(w);
  }

  lemma {:induction false} WordsOfEmpty()
    ensures Words([]) == []
  {
  }

  /** Splitting a single-space join of words gives back the words. */
  lemma {:induction false} WordsOfJoin(words: seq<string>)
    requires forall i :: 0 <= i < |words| ==> IsWord(words[i])
    ensures Words(JoinWithSpaces(words)) == words
  {
    if |words| == 1 {
      WordsOfWord(words[0]);
    } else if |words| > 1 {
      WordsOfJoin(words[1..]);
      WordsAtSpace(words[0], JoinWithSpaces(words[1..]));
      WordsOfWord(words[0]);
      assert [words[0]] + words[1..] == words;
    }
  }

  /** Two spaces in a row split the same words as one. */
  lemma {:induction false} DoubleSpaceWords(a: string, b: string)
    ensures Words(a + "  " + b) == Words(a + " " + b)
  {
    assert a + "  " + b == a + " " + (" " + b);
    assert " " + b == [] + " " + b;
    WordsAtSpace(a, " " + b);
    WordsAtSpace([], b);
    WordsAtSpace(a, b);
  }

  // ---------------------------------------------------------------------------
  // Code-point lexicographic order

  /** `a` sorts before or equal to `b` comparing code points from the left; a proper
      prefix sorts first. */
  predicate LexLe(a: string, b: string) {
    a == [] || (b != [] && (a[0] < b[0] || (a[0] == b[0] && LexLe(a[1..], b[1..]))))
  }

  predicate LexLt(a: string, b: string) {
    LexLe(a, b) && a != b
  }

  lemma {:induction false} LexLeReflexive(a: string)
    ensures LexLe(a, a)
  {
    if a != [] { LexLeReflexive(a[1..]); }
  }

  lemma {:induction false} LexLeTotal(a: string, b: string)
    ensures LexLe(a, b) || LexLe(b, a)
  {
    if a != [] && b != [] && a[0] == b[0] { LexLeTotal(a[1..], b[1..]); }
  }

  lemma {:induction false} LexLeAntisymmetric(a: string, b: string)
    requires LexLe(a, b) && LexLe(b, a)
    ensures a == b
  {
    if a != [] && b != [] {
      LexLeAntisymmetric(a[1..], b[1..]);
      assert a == [a[0]] + a[1..] && b == [b[0]] + b[1..];
    }
  }

  lemma {:induction false} LexLeTransitive(a: string, b: string, c: string)
    requires LexLe(a, b) && LexLe(b, c)
    ensures LexLe(a, c)
  {
    if a != [] && b != [] && c != [] && a[0] == b[0] == c[0] {
      LexLeTransitive(a[1..], b[1..], c[1..]);
    }
  }
}
