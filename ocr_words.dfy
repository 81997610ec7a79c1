/**
 * A reference for the cleaning of scanned text: the words of a text (its
 * maximal runs of non-whitespace characters) joined by single spaces. The
 * cleaning in src/components/shoutout-form.tsx is proved to be exactly that.
 */
module OcrWords {
  import opened OcrText

  /**
   * The words of `s`: its maximal runs of non-whitespace characters, in order.
   * Whitespace separates words; a visible character followed by another one
   * belongs to the same word. This is the reference the cleaning is measured
   * against.
   */
  function Words(s: string): (ws: seq<string>)
    ensures s != [] && !IsWhitespace(s[0]) ==> ws != []
    decreases |s|
  {
    if s == [] then []
    else if IsWhitespace(s[0]) then Words(s[1..])
    else if |s| == 1 || IsWhitespace(s[1]) then [[s[0]]] + Words(s[1..])
    else
      var rest := Words(s[1..]);
      [[s[0]] + rest[0]] + rest[1..]
  }

  /** `words.join(' ')`. */
  function Join(ws: seq<string>): string {
    if ws == [] then []
    else if |ws| == 1 then ws[0]
    else ws[0] + " " + Join(ws[1..])
  }

  /** Text made only of whitespace has no words. */
  lemma {:induction false} WordsOfBlank(u: string)
    requires forall i :: 0 <= i < |u| ==> IsWhitespace(u[i])
    ensures Words(u) == []
  {
    if u != [] {
      assert forall i :: 0 <= i < |u| - 1 ==> u[1..][i] == u[i + 1];
      WordsOfBlank(u[1..]);
    }
  }

  /** A leading whitespace character does not change the words. */
  lemma WordsSpace(c: char, x: string)
    requires IsWhitespace(c)
    ensures Words([c] + x) == Words(x)
  {
    assert ([c] + x)[1..] == x;
  }

  /** A visible character followed by whitespace, or by nothing, is a word of its own. */
  lemma WordsBreak(c: char, x: string)
    requires !IsWhitespace(c) && (x == [] || IsWhitespace(x[0]))
    ensures Words([c] + x) == [[c]] + Words(x)
  {
    assert ([c] + x)[1..] == x;
  }

  /** A visible character followed by a visible character joins the first word. */
  lemma WordsExtend(c: char, x: string)
    requires !IsWhitespace(c) && x != [] && !IsWhitespace(x[0])
    ensures Words(x) != [] && Words([c] + x) == [[c] + Words(x)[0]] + Words(x)[1..]
  {
    assert ([c] + x)[1..] == x;
  }

  /** Leading whitespace is not part of any word. */
  lemma {:induction false} WordsDropWhitespace(s: string)
    ensures Words(DropWhitespace(s)) == Words(s)
  {
    if s != [] && IsWhitespace(s[0]) {
      WordsDropWhitespace(s[1..]);
    }
  }

  /** Trailing whitespace is not part of any word. */
  lemma {:induction false} WordsTrailing(x: string, u: string)
    requires forall i :: 0 <= i < |u| ==> IsWhitespace(u[i])
    ensures Words(x + u) == Words(x)
    decreases |x|
  {
    if x == [] {
      assert x + u == u;
      WordsOfBlank(u);
    } else {
      var y := x[1..];
      assert x == [x[0]] + y && x + u == [x[0]] + (y + u);
      WordsTrailing(y, u);
      if IsWhitespace(x[0]) {
        WordsSpace(x[0], y + u);
        WordsSpace(x[0], y);
      } else {
        if y == [] {
          assert y + u == u;
        } else {
          assert (y + u)[0] == y[0];
        }
        WordsConsCongruent(x[0], y + u, y);
      }
    }
  }

  /** Collapsing whitespace keeps the words: no run of whitespace disappears between two words. */
  lemma {:induction false} CollapseWhitespaceWords(s: string)
    ensures Words(CollapseWhitespace(s)) == Words(s)
    decreases |s|
  {
    if s != [] {
      if IsWhitespace(s[0]) {
        var rest := DropWhitespace(s);
        CollapseWhitespaceWords(rest);
        assert CollapseWhitespace(s) == [' '] + CollapseWhitespace(rest);
        WordsSpace(' ', CollapseWhitespace(rest));
        WordsDropWhitespace(s);
      } else {
        CollapseWhitespaceWords(s[1..]);
        CollapseVisibleStep(s);
      }
    }
  }

  /** The step of `CollapseWhitespaceWords` for a leading visible character. */
  lemma CollapseVisibleStep(s: string)
    requires s != [] && !IsWhitespace(s[0])
    requires Words(CollapseWhitespace(s[1..])) == Words(s[1..])
    ensures Words(CollapseWhitespace(s)) == Words(s)
  {
    CollapseStartsWord(s[1..]);
    CollapseVisibleHead(s);
    WordsConsCongruent(s[0], CollapseWhitespace(s[1..]), s[1..]);
  }

  /** Collapsing keeps a visible character in front. */
  lemma CollapseVisibleHead(s: string)
    requires s != [] && !IsWhitespace(s[0])
    ensures s == [s[0]] + s[1..] && CollapseWhitespace(s) == [s[0]] + CollapseWhitespace(s[1..])
  {
    assert s == [s[0]] + s[1..];
    var rest := CollapseWhitespace(s[1..]);
    assert CollapseWhitespace(s) == [s[0]] + rest;
  }

  /** Collapsed text starts a word exactly where the original does. */
  lemma CollapseStartsWord(x: string)
    ensures var cx := CollapseWhitespace(x);
      (x == [] || IsWhitespace(x[0])) <==> (cx == [] || IsWhitespace(cx[0]))
  {
    var cx := CollapseWhitespace(x);
    if cx != [] {
      assert IsWhitespace(cx[0]) ==> cx[0] == ' ';
    }
  }

  /** Two texts with the same words, both starting a new word or both not, keep equal words behind a visible character. */
  lemma WordsConsCongruent(c: char, x: string, y: string)
    requires !IsWhitespace(c) && Words(x) == Words(y)
    requires (x == [] || IsWhitespace(x[0])) <==> (y == [] || IsWhitespace(y[0]))
    ensures Words([c] + x) == Words([c] + y)
  {
    if x == [] || IsWhitespace(x[0]) {
      WordsBreak(c, x);
      WordsBreak(c, y);
      assert Words([c] + x) == [[c]] + Words(x);
      assert Words([c] + y) == [[c]] + Words(y);
    } else {
      WordsExtend(c, x);
      WordsExtend(c, y);
      assert Words([c] + x) == [[c] + Words(x)[0]] + Words(x)[1..];
      assert Words([c] + y) == [[c] + Words(y)[0]] + Words(y)[1..];
    }
  }

  /** Trimming keeps the words. */
  lemma TrimWords(s: string)
    ensures Words(Trim(s)) == Words(s)
  {
    var t := DropWhitespace(s);
    var r := DropTrailingWhitespace(t);
    TrailingSplit(t);
    WordsTrailing(r, t[|r|..]);
    WordsDropWhitespace(s);
  }

  /** Text is what `DropTrailingWhitespace` keeps followed by whitespace only. */
  lemma TrailingSplit(t: string)
    ensures var r := DropTrailingWhitespace(t);
      && t == r + t[|r|..]
      && forall i :: 0 <= i < |t| - |r| ==> IsWhitespace(t[|r|..][i])
  {
    var r := DropTrailingWhitespace(t);
    DropTrailingWhitespaceRemoved(t);
    forall i | 0 <= i < |t| - |r| ensures IsWhitespace(t[|r|..][i]) {
      assert t[|r|..][i] == t[|r| + i];
    }
  }

  /** Joining a word extended at the front is joining with that character in front. */
  lemma JoinCons(c: char, ws: seq<string>)
    requires ws != []
    ensures Join([[c] + ws[0]] + ws[1..]) == [c] + Join(ws)
  {
    var l := [[c] + ws[0]] + ws[1..];
    if |ws| > 1 {
      assert l[1..] == ws[1..];
    }
  }

  /** Collapsed, trimmed text is its own words joined by single spaces. */
  lemma {:induction false} JoinWords(r: string)
    requires Collapsed(r) && Trimmed(r)
    ensures Join(Words(r)) == r
    decreases |r|
  {
    if r != [] {
      var c, x := r[0], r[1..];
      assert r == [c] + x;
      if x == [] {
        WordsBreak(c, x);
      } else if !IsWhitespace(x[0]) {
        CollapsedSlice(r, 1, |r|);
        JoinWords(x);
        JoinVisibleStep(c, x);
      } else {
        var y := x[1..];
        assert x[0] == ' ' && y != [] && y[0] == r[2] && !IsWhitespace(y[0]);
        assert r == [c, ' '] + y;
        CollapsedSlice(r, 2, |r|);
        JoinWords(y);
        JoinSpaceStep(c, y);
      }
    }
  }

  /** The step of `JoinWords` for two visible characters in a row. */
  lemma JoinVisibleStep(c: char, x: string)
    requires !IsWhitespace(c) && x != [] && !IsWhitespace(x[0])
    requires Join(Words(x)) == x
    ensures Join(Words([c] + x)) == [c] + x
  {
    WordsExtend(c, x);
    JoinCons(c, Words(x));
  }

  /** The step of `JoinWords` for a one-character word followed by a space. */
  lemma JoinSpaceStep(c: char, y: string)
    requires !IsWhitespace(c) && y != [] && !IsWhitespace(y[0])
    requires Join(Words(y)) == y
    ensures Join(Words([c, ' '] + y)) == [c, ' '] + y
  {
    WordsSpaceAfter(c, y);
    JoinPair(c, Words(y));
  }

  /** A visible character and a space in front of a text add a one-character word. */
  lemma WordsSpaceAfter(c: char, y: string)
    requires !IsWhitespace(c)
    ensures Words([c, ' '] + y) == [[c]] + Words(y)
  {
    var x := [' '] + y;
    assert [c, ' '] + y == [c] + x;
    WordsBreak(c, x);
    WordsSpace(' ', y);
  }

  /** Joining a one-character word in front puts that character and a space in front. */
  lemma JoinPair(c: char, ws: seq<string>)
    requires ws != []
    ensures Join([[c]] + ws) == [c, ' '] + Join(ws)
  {
    var l := [[c]] + ws;
    assert |l| > 1 && l[0] == [c] && l[1..] == ws;
  }

  /** The cleaned scan is exactly the scan's words joined by single spaces. */
  lemma CleanScannedTextWords(text: string)
    ensures CleanScannedText(text) == Join(Words(text))
  {
    var collapsed := CollapseWhitespace(text);
    CollapseBlanksOfCollapsed(collapsed);
    CollapseWhitespaceWords(text);
    TrimWords(collapsed);
    JoinWords(CleanScannedText(text));
  }

  /** Every word is a non-empty run of visible characters. */
  lemma {:induction false} WordsAreVisibleRuns(s: string)
    ensures forall k :: 0 <= k < |Words(s)| ==> Words(s)[k] != []
    ensures forall k, i :: 0 <= k < |Words(s)| && 0 <= i < |Words(s)[k]| ==> !IsWhitespace(Words(s)[k][i])
    decreases |s|
  {
    if s != [] {
      WordsAreVisibleRuns(s[1..]);
      if !IsWhitespace(s[0]) && !(|s| == 1 || IsWhitespace(s[1])) {
        var rest := Words(s[1..]);
        var w := Words(s);
        assert w[0] == [s[0]] + rest[0];
        assert forall k :: 1 <= k < |w| ==> w[k] == rest[k];
      }
    }
  }

  /** Two visible characters with whitespace between them clean to those characters and one space. */
  lemma CleanKeepsSeparator(a: char, w: char, b: char)
    requires !IsWhitespace(a) && IsWhitespace(w) && !IsWhitespace(b)
    ensures CleanScannedText([a, w, b]) == [a, ' ', b]
  {
    CleanScannedTextWords([a, w, b]);
    WordsOfPair(a, w, b);
    JoinPair(a, [[b]]);
  }

  /** Two visible characters with whitespace between them are two words. */
  lemma WordsOfPair(a: char, w: char, b: char)
    requires !IsWhitespace(a) && IsWhitespace(w) && !IsWhitespace(b)
    ensures Words([a, w, b]) == [[a], [b]]
  {
    assert [a, w, b] == [a] + ([w] + [b]) && [b] == [b] + [];
    WordsBreak(b, []);
    WordsSpace(w, [b]);
    WordsBreak(a, [w] + [b]);
  }
}
