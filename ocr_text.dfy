/**
 * Cleaning of scanned text in src/components/shoutout-form.tsx:
 * `text.replace(/\s+/g, ' ').replace(/[^\S\r\n]+/g, ' ').trim()`.
 *
 * The cleaned text keeps every non-whitespace character of the scan, in
 * order, separated by at most single spaces, with nothing at either end.
 */
module OcrText {

  /** JavaScript's `\s` class, which is also the set `trim()` removes. */
  predicate IsWhitespace(c: char) {
    || c == ' ' || c == '\t' || c == '\n' || c == '\U{B}' || c == '\U{C}' || c == '\r'
    || c == '\U{A0}' || c == '\U{1680}' || ('\U{2000}' <= c <= '\U{200A}')
    || c == '\U{2028}' || c == '\U{2029}' || c == '\U{202F}' || c == '\U{205F}'
    || c == '\U{3000}' || c == '\U{FEFF}'
  }

  /** `[^\S\r\n]`: whitespace other than carriage return and line feed. */
  predicate IsBlank(c: char) {
    IsWhitespace(c) && c != '\r' && c != '\n'
  }

  /** The non-whitespace characters of `s`, in order. */
  function Visible(s: string): string {
    if s == [] then []
    else (if IsWhitespace(s[0]) then [] else [s[0]]) + Visible(s[1..])
  }

  /** Every whitespace character is a plain space and no two spaces are adjacent. */
  predicate Collapsed(s: string) {
    && (forall i :: 0 <= i < |s| ==> IsWhitespace(s[i]) ==> s[i] == ' ')
    && (forall i :: 0 <= i < |s| - 1 ==> s[i] != ' ' || s[i + 1] != ' ')
  }

  /** No whitespace at either end. */
  predicate Trimmed(s: string) {
    s == [] || (!IsWhitespace(s[0]) && !IsWhitespace(s[|s| - 1]))
  }

  lemma {:induction false} VisibleAppend(a: string, b: string)
    ensures Visible(a + b) == Visible(a) + Visible(b)
  {
    if a == [] {
      assert a + b == b;
    } else {
      assert (a + b)[0] == a[0] && (a + b)[1..] == a[1..] + b;
      VisibleAppend(a[1..], b);
    }
  }

  /** `s` without its leading run of whitespace (`trimStart`). */
  function DropWhitespace(s: string): (r: string)
    ensures |r| <= |s| && r == s[|s| - |r|..]
    ensures r == [] || !IsWhitespace(r[0])
    ensures s != [] && IsWhitespace(s[0]) ==> |r| < |s|
    ensures Visible(r) == Visible(s)
  {
    if s != [] && IsWhitespace(s[0]) then
      var r := DropWhitespace(s[1..]);
      assert s[1..][|s| - 1 - |r|..] == s[|s| - |r|..];
      r
    else s
  }

  /** What `DropWhitespace` removes is whitespace only. */
  lemma {:induction false} DropWhitespaceRemoved(s: string)
    ensures forall k :: 0 <= k < |s| - |DropWhitespace(s)| ==> IsWhitespace(s[k])
  {
    if s != [] && IsWhitespace(s[0]) {
      DropWhitespaceRemoved(s[1..]);
      assert forall k :: 1 <= k < |s| ==> s[k] == s[1..][k - 1];
    }
  }

  /** `s` without its leading run of blanks. */
  function DropBlanks(s: string): (r: string)
    ensures |r| <= |s| && r == s[|s| - |r|..]
    ensures s != [] && IsBlank(s[0]) ==> |r| < |s|
  {
    if s != [] && IsBlank(s[0]) then DropBlanks(s[1..]) else s
  }

  /** `s.replace(/\s+/g, ' ')`: every run of whitespace becomes one space. */
  function CollapseWhitespace(s: string): (r: string)
    ensures Collapsed(r)
    ensures r == [] <==> s == []
    ensures r != [] ==> (r[0] == ' ' <==> IsWhitespace(s[0]))
    decreases |s|
  {
    if s == [] then []
    else if IsWhitespace(s[0]) then
      var rest := CollapseWhitespace(DropWhitespace(s));
      CollapsedCons(' ', rest);
      [' '] + rest
    else
      var rest := CollapseWhitespace(s[1..]);
      CollapsedCons(s[0], rest);
      [s[0]] + rest
  }

  /** A trailing whitespace run is kept as one space: the result ends with a space exactly when the input ends with whitespace. */
  lemma {:induction false} CollapseWhitespaceLast(s: string)
    ensures var r := CollapseWhitespace(s);
      r != [] ==> (r[|r| - 1] == ' ' <==> IsWhitespace(s[|s| - 1]))
    decreases |s|
  {
    if s != [] {
      if IsWhitespace(s[0]) {
        var rest := DropWhitespace(s);
        CollapseWhitespaceLast(rest);
        DropWhitespaceRemoved(s);
        assert CollapseWhitespace(s) == [' '] + CollapseWhitespace(rest);
      } else {
        CollapseWhitespaceLast(s[1..]);
        assert CollapseWhitespace(s) == [s[0]] + CollapseWhitespace(s[1..]);
      }
    }
  }

  /** A character in front of collapsed text keeps it collapsed unless it makes a double space. */
  lemma CollapsedCons(c: char, s: string)
    requires Collapsed(s) && (IsWhitespace(c) ==> c == ' ') && (c == ' ' && s != [] ==> s[0] != ' ')
    ensures Collapsed([c] + s)
  {
    var r := [c] + s;
    forall i | 1 <= i < |r| ensures r[i] == s[i - 1] { }
  }

  /** Collapsing keeps every non-whitespace character, in order. */
  lemma {:induction false} CollapseWhitespaceVisible(s: string)
    ensures Visible(CollapseWhitespace(s)) == Visible(s)
    decreases |s|
  {
    if s != [] {
      if IsWhitespace(s[0]) {
        var rest := DropWhitespace(s);
        CollapseWhitespaceVisible(rest);
        VisibleAppend([' '], CollapseWhitespace(rest));
      } else {
        CollapseWhitespaceVisible(s[1..]);
        VisibleAppend([s[0]], CollapseWhitespace(s[1..]));
      }
    }
  }

  /** `s.replace(/[^\S\r\n]+/g, ' ')`: every run of blanks becomes one space. */
  function CollapseBlanks(s: string): (r: string)
    ensures |r| <= |s|
    ensures r == [] <==> s == []
    decreases |s|
  {
    if s == [] then []
    else if IsBlank(s[0]) then [' '] + CollapseBlanks(DropBlanks(s))
    else [s[0]] + CollapseBlanks(s[1..])
  }

  /**
   * The second replacement read character by character: a blank that ends
   * its run is written as one space, a blank followed by another blank is
   * dropped, and every other character (line breaks included) is kept.
   */
  function BlankRunEnds(s: string): (r: string)
    ensures |r| <= |s|
  {
    if s == [] then []
    else if IsBlank(s[0]) && |s| > 1 && IsBlank(s[1]) then BlankRunEnds(s[1..])
    else if IsBlank(s[0]) then [' '] + BlankRunEnds(s[1..])
    else [s[0]] + BlankRunEnds(s[1..])
  }

  lemma {:induction false} RunEndsDropBlanks(s: string)
    requires s != [] && IsBlank(s[0])
    ensures BlankRunEnds(s) == [' '] + BlankRunEnds(DropBlanks(s))
  {
    if |s| > 1 && IsBlank(s[1]) {
      RunEndsDropBlanks(s[1..]);
    } else {
      assert DropBlanks(s[1..]) == s[1..];
    }
  }

  /** Replacing whole runs of blanks agrees with the character-by-character reading. */
  lemma {:induction false} CollapseBlanksRunEnds(s: string)
    ensures CollapseBlanks(s) == BlankRunEnds(s)
    decreases |s|
  {
    if s != [] {
      if IsBlank(s[0]) {
        CollapseBlanksRunEnds(DropBlanks(s));
        RunEndsDropBlanks(s);
      } else {
        CollapseBlanksRunEnds(s[1..]);
      }
    }
  }

  /** Between two characters that are not blanks, a blank becomes one space and anything else, a line break included, stays. */
  lemma CollapseBlanksBetween(a: char, w: char, c: char)
    requires !IsBlank(a) && !IsBlank(c)
    ensures CollapseBlanks([a, w, c]) == if IsBlank(w) then [a, ' ', c] else [a, w, c]
  {
    var s := [a, w, c];
    CollapseBlanksRunEnds(s);
    RunEndsPair(w, c);
    assert s[1..] == [w, c];
  }

  lemma RunEndsPair(w: char, c: char)
    requires !IsBlank(c)
    ensures BlankRunEnds([w, c]) == (if IsBlank(w) then [' '] else [w]) + [c]
  {
    var x := [w, c];
    assert x[1..] == [c] && [c][1..] == [];
    assert BlankRunEnds([c]) == [c];
  }

  /** Leading blanks are whitespace: dropping them keeps the visible characters. */
  lemma {:induction false} DropBlanksVisible(s: string)
    ensures Visible(DropBlanks(s)) == Visible(s)
  {
    if s != [] && IsBlank(s[0]) {
      DropBlanksVisible(s[1..]);
    }
  }

  /** The second replacement only rewrites blanks, so the visible characters stay as they were. */
  lemma {:induction false} CollapseBlanksVisible(s: string)
    ensures Visible(CollapseBlanks(s)) == Visible(s)
    decreases |s|
  {
    if s != [] {
      if IsBlank(s[0]) {
        var rest := DropBlanks(s);
        CollapseBlanksVisible(rest);
        DropBlanksVisible(s);
        assert ([' '] + CollapseBlanks(rest))[1..] == CollapseBlanks(rest);
      } else {
        CollapseBlanksVisible(s[1..]);
        assert ([s[0]] + CollapseBlanks(s[1..]))[1..] == CollapseBlanks(s[1..]);
      }
    }
  }

  /** The second replacement changes nothing once whitespace is collapsed. */
  lemma {:induction false} CollapseBlanksOfCollapsed(s: string)
    requires Collapsed(s)
    ensures CollapseBlanks(s) == s
    decreases |s|
  {
    if s != [] {
      assert Collapsed(s[1..]);
      CollapseBlanksOfCollapsed(s[1..]);
      if IsBlank(s[0]) {
        assert s[1..] == [] || !IsBlank(s[1]);
        assert DropBlanks(s) == s[1..];
      }
    }
  }

  /** `trimEnd`: `s` without its trailing run of whitespace. */
  function DropTrailingWhitespace(s: string): (r: string)
    ensures |r| <= |s| && r == s[..|r|]
    ensures r == [] || !IsWhitespace(r[|r| - 1])
    ensures Visible(r) == Visible(s)
  {
    if s != [] && IsWhitespace(s[|s| - 1]) then
      var r := DropTrailingWhitespace(s[..|s| - 1]);
      assert s == s[..|s| - 1] + [s[|s| - 1]];
      VisibleAppend(s[..|s| - 1], [s[|s| - 1]]);
      r
    else s
  }

  /** What `DropTrailingWhitespace` removes is whitespace only. */
  lemma {:induction false} DropTrailingWhitespaceRemoved(s: string)
    ensures forall k :: |DropTrailingWhitespace(s)| <= k < |s| ==> IsWhitespace(s[k])
  {
    if s != [] && IsWhitespace(s[|s| - 1]) {
      DropTrailingWhitespaceRemoved(s[..|s| - 1]);
      assert forall k :: 0 <= k < |s| - 1 ==> s[k] == s[..|s| - 1][k];
    }
  }

  /** `trim()`. */
  function Trim(s: string): (r: string)
    ensures Trimmed(r)
    ensures Visible(r) == Visible(s)
  {
    DropTrailingWhitespace(DropWhitespace(s))
  }

  /** `trim()` removes whitespace at the two ends and nothing else: the result is a slice of the input. */
  lemma TrimOnlyEnds(s: string)
    ensures exists i, j ::
              && 0 <= i <= j <= |s| && Trim(s) == s[i..j]
              && (forall k :: 0 <= k < i ==> IsWhitespace(s[k]))
              && (forall k :: j <= k < |s| ==> IsWhitespace(s[k]))
  {
    var t := DropWhitespace(s);
    var r := DropTrailingWhitespace(t);
    var i, j := |s| - |t|, |s| - |t| + |r|;
    DropWhitespaceRemoved(s);
    DropTrailingWhitespaceRemoved(t);
    assert r == s[i..j] by { assert t == s[i..] && r == t[..|r|]; }
    forall k | j <= k < |s| ensures IsWhitespace(s[k]) {
      assert s[k] == t[k - i] && |r| <= k - i < |t|;
    }
  }

  /** A slice of collapsed text is collapsed. */
  lemma CollapsedSlice(s: string, i: int, j: int)
    requires Collapsed(s) && 0 <= i <= j <= |s|
    ensures Collapsed(s[i..j])
  {
    var t := s[i..j];
    assert forall k :: 0 <= k < |t| ==> t[k] == s[i + k];
  }

  /** Collapsed text has no line break: every whitespace character in it is a space. */
  lemma CollapsedNoLineBreak(s: string)
    requires Collapsed(s)
    ensures forall i :: 0 <= i < |s| ==> s[i] != '\n' && s[i] != '\r'
  {
    forall i | 0 <= i < |s| ensures s[i] != '\n' && s[i] != '\r' {
      assert IsWhitespace(s[i]) ==> s[i] == ' ';
    }
  }

  /**
   * The cleaned scan: its non-whitespace characters are exactly the scan's, in
   * order; its only whitespace is single spaces; it has no whitespace at either
   * end, hence no line break and no double space.
   */
  function CleanScannedText(text: string): (r: string)
    ensures Visible(r) == Visible(text)
    ensures Collapsed(r) && Trimmed(r)
    ensures forall i :: 0 <= i < |r| ==> r[i] != '\n' && r[i] != '\r'
  {
    var collapsed := CollapseWhitespace(text);
    var blanks := CollapseBlanks(collapsed);
    assert blanks == collapsed by { CollapseBlanksOfCollapsed(collapsed); }
    var t := DropWhitespace(blanks);
    var r := DropTrailingWhitespace(t);
    assert Collapsed(r) by {
      CollapsedSlice(collapsed, |collapsed| - |t|, |collapsed|);
      CollapsedSlice(t, 0, |r|);
    }
    assert Visible(r) == Visible(text) by { CollapseWhitespaceVisible(text); }
    CollapsedNoLineBreak(r);
    Trim(blanks)
  }

  /** Scanned text with no visible character cleans to the empty string. */
  lemma {:induction false} CleanBlankScan(text: string)
    requires Visible(text) == []
    ensures CleanScannedText(text) == []
  {
  }
}
