/** The word-list parse both games apply to the fetched text: split into
    lines on LF or CRLF, trim every line with JavaScript's `trim`, and drop
    the lines that are left empty. */
module WordList {

  /** The characters `String.prototype.trim` removes: the ECMAScript
      WhiteSpace characters (tab, vertical tab, form feed, space, no-break
      space, byte order mark and the Unicode space separators) and the
      LineTerminator characters. */
  predicate IsJsSpace(c: char)
  {
    || c == '\U{0009}' || c == '\U{000B}' || c == '\U{000C}' || c == ' '
    || c == '\U{00A0}' || c == '\U{FEFF}'
    || c == '\U{1680}' || ('\U{2000}' <= c <= '\U{200A}') || c == '\U{202F}' || c == '\U{205F}' || c == '\U{3000}'
    || c == '\n' || c == '\r' || c == '\U{2028}' || c == '\U{2029}'
  }

  function TrimStart(s: string): string
  {
    if s != [] && IsJsSpace(s[0]) then TrimStart(s[1..]) else s
  }

  function TrimEnd(s: string): string
  {
    if s != [] && IsJsSpace(s[|s| - 1]) then TrimEnd(s[..|s| - 1]) else s
  }

  /** `s.trim()`. */
  function Trim(s: string): string
  {
    TrimEnd(TrimStart(s))
  }

  /** Position of the first line feed of `s`, which must have one. */
  function IndexOfNewline(s: string): (i: nat)
    requires '\n' in s
    ensures i < |s| && s[i] == '\n' && forall k :: 0 <= k < i ==> s[k] != '\n'
  {
    if s[0] == '\n' then 0
    else
      assert '\n' in s[1..] by {
        var k :| 0 <= k < |s| && s[k] == '\n';
        assert s[1..][k - 1] == '\n';
      }
      var j := IndexOfNewline(s[1..]);
      assert forall k :: 1 <= k < j + 1 ==> s[k] == s[1..][k - 1];
      j + 1
  }

  /** A line ended by a CRLF loses its carriage return with the separator. */
  function DropCarriageReturn(piece: string): string
  {
    if piece != [] && piece[|piece| - 1] == '\r' then piece[..|piece| - 1] else piece
  }

  /** `text.split(/\r?\n/)`: every line feed ends a line, together with a
      carriage return just before it; the text after the last line feed is
      the last line. */
  function SplitLines(text: string): seq<string>
    decreases |text|
  {
    if '\n' !in text then [text]
    else
      var i := IndexOfNewline(text);
      [DropCarriageReturn(text[..i])] + SplitLines(text[i + 1..])
  }

  /** The trimmed lines that are not empty, in order. */
  function KeepTrimmed(lines: seq<string>): seq<string>
  {
    if lines == [] then []
    else (if Trim(lines[0]) != "" then [Trim(lines[0])] else []) + KeepTrimmed(lines[1..])
  }

  /** `text.split(/\r?\n/).map(line => line.trim()).filter(word => word.length > 0)`. */
  function ParseWordList(text: string): seq<string>
  {
    KeepTrimmed(SplitLines(text))
  }

  // ---------------------------------------------------------------------
  // Trimming

  lemma {:induction false} TrimStartShape(s: string)
    ensures exists i :: 0 <= i <= |s| && TrimStart(s) == s[i..] && forall k :: 0 <= k < i ==> IsJsSpace(s[k])
    ensures TrimStart(s) != [] ==> !IsJsSpace(TrimStart(s)[0])
  {
    if s != [] && IsJsSpace(s[0]) {
      TrimStartShape(s[1..]);
      var i :| 0 <= i <= |s[1..]| && TrimStart(s[1..]) == s[1..][i..] && forall k :: 0 <= k < i ==> IsJsSpace(s[1..][k]);
      assert s[1..][i..] == s[i + 1..];
      forall k | 0 <= k < i + 1 ensures IsJsSpace(s[k]) {
        if k > 0 {
          assert s[k] == s[1..][k - 1];
        }
      }
    } else {
      assert s[0..] == s;
    }
  }

  lemma {:induction false} TrimEndShape(s: string)
    ensures exists j :: 0 <= j <= |s| && TrimEnd(s) == s[..j] && forall k :: j <= k < |s| ==> IsJsSpace(s[k])
    ensures TrimEnd(s) != [] ==> !IsJsSpace(TrimEnd(s)[|TrimEnd(s)| - 1])
  {
    if s != [] && IsJsSpace(s[|s| - 1]) {
      var init := s[..|s| - 1];
      TrimEndShape(init);
      var j :| 0 <= j <= |init| && TrimEnd(init) == init[..j] && forall k :: j <= k < |init| ==> IsJsSpace(init[k]);
      assert init[..j] == s[..j];
      forall k | j <= k < |s| ensures IsJsSpace(s[k]) {
        if k < |init| {
          assert s[k] == init[k];
        }
      }
    } else {
      assert s[..|s|] == s;
    }
  }

  /** The trimmed string neither starts nor ends with a space. */
  lemma TrimEnds(s: string)
    ensures Trim(s) != [] ==> !IsJsSpace(Trim(s)[0]) && !IsJsSpace(Trim(s)[|Trim(s)| - 1])
  {
    TrimStartShape(s);
    TrimEndShape(TrimStart(s));
    if Trim(s) != [] {
      var j :| 0 <= j <= |TrimStart(s)| && Trim(s) == TrimStart(s)[..j];
      assert Trim(s)[0] == TrimStart(s)[0];
    }
  }

  /** Every character of the trimmed string occurs in the string. */
  lemma TrimMembers(s: string, c: char)
    requires c in Trim(s)
    ensures c in s
  {
    TrimEndMembers(TrimStart(s), c);
    TrimStartMembers(s, c);
  }

  lemma {:induction false} TrimStartMembers(s: string, c: char)
    requires c in TrimStart(s)
    ensures c in s
  {
    if s != [] && IsJsSpace(s[0]) {
      TrimStartMembers(s[1..], c);
    }
  }

  lemma {:induction false} TrimEndMembers(s: string, c: char)
    requires c in TrimEnd(s)
    ensures c in s
  {
    if s != [] && IsJsSpace(s[|s| - 1]) {
      TrimEndMembers(s[..|s| - 1], c);
    }
  }

  lemma {:induction false} TrimStartIdempotent(s: string)
    requires s == [] || !IsJsSpace(s[0])
    ensures TrimStart(s) == s
  {
  }

  lemma {:induction false} TrimEndNoSpace(s: string)
    requires s == [] || !IsJsSpace(s[|s| - 1])
    ensures TrimEnd(s) == s
  {
  }

  /** Trimming twice is trimming once. */
  lemma TrimIdempotent(s: string)
    ensures Trim(Trim(s)) == Trim(s)
  {
    TrimEnds(s);
    var t := Trim(s);
    TrimStartIdempotent(t);
    TrimEndNoSpace(t);
  }

  /** A trailing space does not change the trimmed string. */
  lemma {:induction false} TrimDropLastSpace(s: string)
    requires s != [] && IsJsSpace(s[|s| - 1])
    ensures Trim(s[..|s| - 1]) == Trim(s)
  {
    var init := s[..|s| - 1];
    if TrimStart(s) == [] {
      TrimStartEmpty(s);
    } else {
      TrimStartSuffix(s);
    }
  }

  /** If `TrimStart` consumes all of `s`, it consumes all of every prefix. */
  lemma {:induction false} TrimStartEmpty(s: string)
    requires s != [] && TrimStart(s) == []
    ensures TrimStart(s[..|s| - 1]) == []
  {
    if |s| > 1 {
      assert IsJsSpace(s[0]);
      TrimStartEmpty(s[1..]);
      assert s[1..][..|s[1..]| - 1] == s[..|s| - 1][1..];
    }
  }

  /** When `TrimStart` stops inside `s`, dropping the last character of `s`
      drops the last character of the result. */
  lemma {:induction false} TrimStartSuffix(s: string)
    requires s != [] && TrimStart(s) != []
    ensures TrimStart(s[..|s| - 1]) == TrimStart(s)[..|TrimStart(s)| - 1]
    ensures TrimStart(s)[|TrimStart(s)| - 1] == s[|s| - 1]
  {
    if IsJsSpace(s[0]) {
      TrimStartSuffix(s[1..]);
      assert s[1..][..|s[1..]| - 1] == s[..|s| - 1][1..];
      assert s[..|s| - 1] != [] && IsJsSpace(s[..|s| - 1][0]);
    }
  }

  // ---------------------------------------------------------------------
  // Lines

  /** The text before the first line feed is the first line, and the text
      after it gives the remaining lines. */
  lemma SplitLinesAt(text: string, i: nat)
    requires i < |text| && text[i] == '\n' && forall k :: 0 <= k < i ==> text[k] != '\n'
    ensures SplitLines(text) == [DropCarriageReturn(text[..i])] + SplitLines(text[i + 1..])
  {
    IndexOfNewlineFirst(text, i);
  }

  /** Every character of a line occurs in its piece of the text. */
  lemma DropCarriageReturnMembers(piece: string, c: char)
    requires c in DropCarriageReturn(piece)
    ensures c in piece
  {
    if piece != [] && piece[|piece| - 1] == '\r' {
      var m :| 0 <= m < |piece| - 1 && piece[..|piece| - 1][m] == c;
      assert piece[m] == c;
    }
  }

  /** There is one line more than there are line feeds. */
  lemma {:induction false} SplitLinesCount(text: string)
    ensures |SplitLines(text)| == multiset(text)['\n'] + 1
    decreases |text|
  {
    if '\n' in text {
      var i := IndexOfNewline(text);
      SplitLinesAt(text, i);
      SplitLinesCount(text[i + 1..]);
      assert text == text[..i] + [text[i]] + text[i + 1..];
      assert multiset(text[..i])['\n'] == 0;
    } else {
      assert multiset(text)['\n'] == 0;
    }
  }

  /** No line holds a line feed. */
  lemma {:induction false} SplitLinesNoNewline(text: string)
    ensures forall k :: 0 <= k < |SplitLines(text)| ==> '\n' !in SplitLines(text)[k]
    decreases |text|
  {
    if '\n' in text {
      var i := IndexOfNewline(text);
      SplitLinesAt(text, i);
      SplitLinesNoNewline(text[i + 1..]);
      if '\n' in DropCarriageReturn(text[..i]) {
        DropCarriageReturnMembers(text[..i], '\n');
        assert false;
      }
      var r := SplitLines(text);
      forall k | 0 <= k < |r| ensures '\n' !in r[k] {
        if k > 0 {
          assert r[k] == SplitLines(text[i + 1..])[k - 1];
        }
      }
    }
  }

  lemma {:induction false} KeepTrimmedAppend(a: seq<string>, b: seq<string>)
    ensures KeepTrimmed(a + b) == KeepTrimmed(a) + KeepTrimmed(b)
  {
    if a != [] {
      KeepTrimmedAppend(a[1..], b);
      assert (a + b)[1..] == a[1..] + b;
    } else {
      assert a + b == b;
    }
  }

  /** Every parsed word is non-empty and trimmed, and holds no line feed. */
  lemma ParseWordListWords(text: string)
    ensures forall k :: 0 <= k < |ParseWordList(text)| ==>
      ParseWordList(text)[k] != "" && Trim(ParseWordList(text)[k]) == ParseWordList(text)[k]
      && '\n' !in ParseWordList(text)[k]
  {
    SplitLinesNoNewline(text);
    KeepTrimmedWords(SplitLines(text));
  }

  lemma {:induction false} KeepTrimmedWords(lines: seq<string>)
    requires forall k :: 0 <= k < |lines| ==> '\n' !in lines[k]
    ensures forall k :: 0 <= k < |KeepTrimmed(lines)| ==>
      KeepTrimmed(lines)[k] != "" && Trim(KeepTrimmed(lines)[k]) == KeepTrimmed(lines)[k]
      && '\n' !in KeepTrimmed(lines)[k]
  {
    if lines != [] {
      KeepTrimmedWords(lines[1..]);
      TrimIdempotent(lines[0]);
      if '\n' in Trim(lines[0]) {
        TrimMembers(lines[0], '\n');
        assert false;
      }
      var r := KeepTrimmed(lines);
      var head := if Trim(lines[0]) != "" then [Trim(lines[0])] else [];
      forall k | |head| <= k < |r| ensures r[k] == KeepTrimmed(lines[1..])[k - |head|] {
      }
    }
  }

  /** The words of a text whose first line feed is at `i`: those of the
      first line, then those of the rest. */
  lemma ParseWordListAt(text: string, i: nat)
    requires i < |text| && text[i] == '\n' && forall k :: 0 <= k < i ==> text[k] != '\n'
    ensures ParseWordList(text) == KeepTrimmed([DropCarriageReturn(text[..i])]) + ParseWordList(text[i + 1..])
  {
    SplitLinesAt(text, i);
    KeepTrimmedAppend([DropCarriageReturn(text[..i])], SplitLines(text[i + 1..]));
  }

  /** The carriage return a CRLF leaves behind does not change the word. */
  lemma KeepDropCarriageReturn(line: string)
    ensures KeepTrimmed([DropCarriageReturn(line)]) == KeepTrimmed([line])
  {
    if line != [] && line[|line| - 1] == '\r' {
      TrimDropLastSpace(line);
    }
  }

  /** Line order is kept: the words of two texts joined by a line feed are
      the words of the first followed by the words of the second. */
  lemma {:induction false} ParseWordListAppend(a: string, b: string)
    ensures ParseWordList(a + "\n" + b) == ParseWordList(a) + ParseWordList(b)
    decreases |a|
  {
    if '\n' in a {
      var i := IndexOfNewline(a);
      ParseWordListAppend(a[i + 1..], b);
      JoinStep(a, b, i);
    } else {
      JoinSingleLine(a, b);
    }
  }

  /** The inductive step: joining after the first line of `a`. */
  lemma JoinStep(a: string, b: string, i: nat)
    requires i < |a| && a[i] == '\n' && forall k :: 0 <= k < i ==> a[k] != '\n'
    requires ParseWordList(a[i + 1..] + "\n" + b) == ParseWordList(a[i + 1..]) + ParseWordList(b)
    ensures ParseWordList(a + "\n" + b) == ParseWordList(a) + ParseWordList(b)
  {
    JoinAfterFirstLine(a, b, i);
    ParseWordListAt(a, i);
  }

  /** Joining keeps the first line of a text that has a line feed. */
  lemma JoinAfterFirstLine(a: string, b: string, i: nat)
    requires i < |a| && a[i] == '\n' && forall k :: 0 <= k < i ==> a[k] != '\n'
    ensures ParseWordList(a + "\n" + b) ==
      KeepTrimmed([DropCarriageReturn(a[..i])]) + ParseWordList(a[i + 1..] + "\n" + b)
  {
    var t := a + "\n" + b;
    assert forall k :: 0 <= k <= i ==> t[k] == a[k];
    assert t[..i] == a[..i];
    assert t[i + 1..] == a[i + 1..] + "\n" + b;
    ParseWordListAt(t, i);
  }

  /** Joining a text without line feeds makes it the first line. */
  lemma JoinSingleLine(a: string, b: string)
    requires '\n' !in a
    ensures ParseWordList(a + "\n" + b) == ParseWordList(a) + ParseWordList(b)
  {
    var t := a + "\n" + b;
    assert forall k :: 0 <= k < |a| ==> t[k] == a[k];
    assert t[..|a|] == a;
    assert t[|a| + 1..] == b;
    ParseWordListAt(t, |a|);
    KeepDropCarriageReturn(a);
    ParseSingleLine(a);
  }

  /** The first line feed is at `i` when `s[i]` is one and none comes before. */
  lemma IndexOfNewlineFirst(s: string, i: nat)
    requires i < |s| && s[i] == '\n' && forall k :: 0 <= k < i ==> s[k] != '\n'
    ensures IndexOfNewline(s) == i
  {
  }

  /** A text without line feeds is one line: it gives its trimmed self, or nothing. */
  lemma ParseSingleLine(text: string)
    requires '\n' !in text
    ensures ParseWordList(text) == if Trim(text) != "" then [Trim(text)] else []
  {
    assert SplitLines(text) == [text];
    assert KeepTrimmed([text]) == (if Trim(text) != "" then [Trim(text)] else []) + KeepTrimmed([]);
  }
}
