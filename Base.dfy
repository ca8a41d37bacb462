/** The shared page script: the Konami-code keydown matcher, which turns the
    page border into a rainbow, and `drawAsciiBox`, the text of that border
    for given character counts. */
module Base {
  import opened Wrappers
  import opened WordList

  // ---------------------------------------------------------------------
  // The Konami code

  /** `konamiCode`, as `KeyboardEvent.code` values. */
  const KonamiCode: seq<string> := [
    "ArrowUp", "ArrowUp", "ArrowDown", "ArrowDown",
    "ArrowLeft", "ArrowRight", "ArrowLeft", "ArrowRight",
    "KeyB", "KeyA"]

  /** One keydown at matcher position `position`: the new position and
      whether the key completed the code. A matching key advances the
      position, and the tenth one fires and starts over; any other key
      starts over without firing. */
  function Step(position: nat, key: string): (r: (nat, bool))
    requires position < |KonamiCode|
    ensures r.0 < |KonamiCode|
    ensures r.1 <==> position == |KonamiCode| - 1 && key == KonamiCode[position]
    ensures key != KonamiCode[position] ==> r.0 == 0
    ensures key == KonamiCode[position] && position < |KonamiCode| - 1 ==> r.0 == position + 1
    ensures r.1 ==> r.0 == 0
  {
    if key == KonamiCode[position] then
      if position + 1 == |KonamiCode| then (0, true) else (position + 1, false)
    else (0, false)
  }

  /** `konamiCodePosition` after the keys `keys`, starting from 0. */
  function Run(keys: seq<string>): (p: nat)
    ensures p < |KonamiCode|
  {
    if keys == [] then 0 else Step(Run(keys[..|keys| - 1]), keys[|keys| - 1]).0
  }

  /** The last of `keys` triggered `onKonamiCodeDetected`. */
  predicate Fires(keys: seq<string>)
  {
    keys != [] && Step(Run(keys[..|keys| - 1]), keys[|keys| - 1]).1
  }

  /** How many of the keys triggered a detection. */
  function Detections(keys: seq<string>): nat
  {
    if keys == [] then 0 else Detections(keys[..|keys| - 1]) + (if Fires(keys) then 1 else 0)
  }

  /** The position counts the last keys, which are the start of the code. */
  lemma {:induction false} RunSuffix(keys: seq<string>)
    ensures Run(keys) <= |keys|
    ensures keys[|keys| - Run(keys)..] == KonamiCode[..Run(keys)]
  {
    if keys != [] {
      var init := keys[..|keys| - 1];
      var key := keys[|keys| - 1];
      RunSuffix(init);
      Snoc(init, key);
      assert keys == init + [key];
      var p := Run(init);
      if key == KonamiCode[p] && p < |KonamiCode| - 1 {
        SuffixGrows(init, key, p);
      }
    }
  }

  lemma SuffixGrows(init: seq<string>, key: string, p: nat)
    requires p < |KonamiCode| && p <= |init| && init[|init| - p..] == KonamiCode[..p] && key == KonamiCode[p]
    ensures (init + [key])[|init| - p..] == KonamiCode[..p + 1]
  {
    assert (init + [key])[|init| - p..] == init[|init| - p..] + [key];
    assert KonamiCode[..p + 1] == KonamiCode[..p] + [KonamiCode[p]];
  }

  /** A detection means the last ten keys were the code. */
  lemma FiresMeansCode(keys: seq<string>)
    requires Fires(keys)
    ensures |keys| >= |KonamiCode| && keys[|keys| - |KonamiCode|..] == KonamiCode
  {
    var init := keys[..|keys| - 1];
    RunSuffix(init);
    assert keys[|keys| - |KonamiCode|..] == init[|init| - 9..] + [keys[|keys| - 1]];
    assert KonamiCode == KonamiCode[..9] + [KonamiCode[9]];
  }

  /** From position 0, the first `i` keys of the code (short of all ten)
      advance the position to `i` without a detection. */
  lemma {:induction false} FeedPrefix(keys: seq<string>, i: nat)
    requires Run(keys) == 0 && i < |KonamiCode|
    ensures Run(keys + KonamiCode[..i]) == i
    ensures Detections(keys + KonamiCode[..i]) == Detections(keys)
  {
    if i == 0 {
      assert keys + KonamiCode[..0] == keys;
    } else {
      FeedPrefix(keys, i - 1);
      CodePrefixSnoc(keys, i);
      Snoc(keys + KonamiCode[..i - 1], KonamiCode[i - 1]);
    }
  }

  lemma CodePrefixSnoc(keys: seq<string>, i: nat)
    requires 0 < i <= |KonamiCode|
    ensures keys + KonamiCode[..i] == keys + KonamiCode[..i - 1] + [KonamiCode[i - 1]]
  {
    assert KonamiCode[..i] == KonamiCode[..i - 1] + [KonamiCode[i - 1]];
  }

  /** From position 0, typing the code fires exactly once, on its last key,
      and leaves the position at 0 for another detection. */
  lemma CodeFires(keys: seq<string>)
    requires Run(keys) == 0
    ensures Fires(keys + KonamiCode)
    ensures Run(keys + KonamiCode) == 0
    ensures Detections(keys + KonamiCode) == Detections(keys) + 1
  {
    FeedPrefix(keys, 9);
    CodePrefixSnoc(keys, 10);
    assert KonamiCode[..10] == KonamiCode;
    Snoc(keys + KonamiCode[..9], KonamiCode[9]);
  }

  /** One more key steps the matcher once. */
  lemma Snoc(keys: seq<string>, key: string)
    ensures Run(keys + [key]) == Step(Run(keys), key).0
    ensures Fires(keys + [key]) == Step(Run(keys), key).1
    ensures Detections(keys + [key]) == Detections(keys) + if Step(Run(keys), key).1 then 1 else 0
  {
    assert (keys + [key])[..|keys|] == keys;
  }

  /** At position 0, keys other than `ArrowUp` leave the position at 0 and
      detect nothing. */
  lemma {:induction false} StaysReset(keys: seq<string>, more: seq<string>)
    requires Run(keys) == 0 && KonamiCode[0] !in more
    ensures Run(keys + more) == 0
    ensures Detections(keys + more) == Detections(keys)
  {
    if more == [] {
      assert keys + more == keys;
    } else {
      var init := more[..|more| - 1];
      StaysReset(keys, init);
      Snoc(keys + init, more[|more| - 1]);
      assert keys + more == keys + init + [more[|more| - 1]];
    }
  }

  /** A mismatching key resets the position even when it is the first key
      of the code: after one extra `ArrowUp` the code itself is typed, its
      last ten keys are the code, and nothing fires. */
  lemma ExtraFirstKeyMisses()
    ensures (["ArrowUp"] + KonamiCode)[1..] == KonamiCode
    ensures Detections(["ArrowUp"] + KonamiCode) == 0
  {
    var up := KonamiCode[0];
    ThreeUps();
    var rest := KonamiCode[2..];
    assert up !in rest;
    StaysReset([up, up, up], rest);
    assert ["ArrowUp"] + KonamiCode == [up, up, up] + rest;
  }

  /** A third `ArrowUp` breaks the sequence. */
  lemma ThreeUps()
    ensures var up := KonamiCode[0]; Run([up, up, up]) == 0 && Detections([up, up, up]) == 0
  {
    var up := KonamiCode[0];
    Snoc([], up);
    assert [] + [up] == [up];
    Snoc([up], up);
    assert [up] + [up] == [up, up];
    Snoc([up, up], up);
    assert [up, up] + [up] == [up, up, up];
  }

  /** The keydown listener's state: `konamiCodePosition`, whether the
      border carries the `rainbow` class, and the keys seen so far. */
  class KonamiListener {
    var position: nat
    var rainbow: bool
    ghost var keys: seq<string>

    ghost predicate Valid()
      reads this
    {
      position == Run(keys) && (rainbow <==> Detections(keys) > 0)
    }

    constructor ()
      ensures Valid() && keys == [] && position == 0 && !rainbow
    {
      position := 0;
      rainbow := false;
      keys := [];
    }

    /** The keydown handler, with `onKonamiCodeDetected` adding the class. */
    method OnKeyDown(key: string)
      requires Valid()
      modifies this
      ensures Valid() && keys == old(keys) + [key]
      ensures rainbow <==> old(rainbow) || Fires(keys)
    {
      keys := keys + [key];
      assert keys[..|keys| - 1] == old(keys);
      if key == KonamiCode[position] {
        position := position + 1;
        if position == |KonamiCode| {
          rainbow := true;
          position := 0;
        }
      } else {
        position := 0;
      }
    }
  }

  // ---------------------------------------------------------------------
  // The ASCII border

  const Corner := '+'
  const Horizontal := '\U{2014}'
  const Vertical := '|'

  /** `String.prototype.repeat` of one character, for a count that is not
      negative. */
  function Repeat(c: char, n: nat): (s: string)
    ensures |s| == n && forall i :: 0 <= i < n ==> s[i] == c
  {
    if n == 0 then [] else Repeat(c, n - 1) + [c]
  }

  /** The top and bottom line: a corner, `n` em dashes, a corner. */
  function Border(n: nat): string
  {
    [Corner] + Repeat(Horizontal, n) + [Corner]
  }

  /** A middle line: a bar, `n` spaces, a bar. */
  function Row(n: nat): string
  {
    [Vertical] + Repeat(' ', n) + [Vertical]
  }

  /** The middle lines for `k` rows (none when `k` is not positive). */
  function Rows(n: nat, k: int): seq<string>
  {
    if k <= 0 then [] else Rows(n, k - 1) + [Row(n)]
  }

  /** The lines of the box, without their line feeds. */
  function BoxLines(n: nat, k: int): seq<string>
  {
    [Border(n)] + Rows(n, k) + [Border(n)]
  }

  /** Every line followed by a line feed. */
  function Join(lines: seq<string>): string
  {
    if lines == [] then "" else lines[0] + "\n" + Join(lines[1..])
  }

  lemma {:induction false} JoinAppend(a: seq<string>, b: seq<string>)
    ensures Join(a + b) == Join(a) + Join(b)
  {
    if a != [] {
      assert (a + b)[1..] == a[1..] + b;
      JoinAppend(a[1..], b);
    } else {
      assert a + b == b;
    }
  }

  /** `drawAsciiBox` after the two character counts are computed: the border
      line, `sideCharCount` middle rows built in a loop, the border line.
      `repeat` throws a `RangeError` for a negative count, so a negative
      `topCharCount` gives no box. */
  method DrawAsciiBox(topCharCount: int, sideCharCount: int) returns (box: Option<string>)
    ensures topCharCount < 0 ==> box == None
    ensures topCharCount >= 0 ==> box == Some(Join(BoxLines(topCharCount, sideCharCount)))
  {
    if topCharCount < 0 {
      return None;
    }
    var topBottomBorder := Border(topCharCount) + "\n";
    var middleRows := "";
    var i := 0;
    while i < sideCharCount
      invariant 0 <= i <= (if sideCharCount > 0 then sideCharCount else 0)
      invariant middleRows == Join(Rows(topCharCount, i))
    {
      JoinAppend(Rows(topCharCount, i), [Row(topCharCount)]);
      middleRows := middleRows + Row(topCharCount) + "\n";
      i := i + 1;
    }
    assert Rows(topCharCount, i) == Rows(topCharCount, sideCharCount);
    assert Join([Border(topCharCount)]) == topBottomBorder by {
      assert [Border(topCharCount)][1..] == [];
    }
    JoinAppend([Border(topCharCount)] + Rows(topCharCount, sideCharCount), [Border(topCharCount)]);
    JoinAppend([Border(topCharCount)], Rows(topCharCount, sideCharCount));
    return Some(topBottomBorder + middleRows + topBottomBorder);
  }

  lemma {:induction false} RowsShape(n: nat, k: int)
    ensures |Rows(n, k)| == if k > 0 then k else 0
    ensures forall i :: 0 <= i < |Rows(n, k)| ==> Rows(n, k)[i] == Row(n)
  {
    if k > 0 {
      RowsShape(n, k - 1);
    }
  }

  /** The box has `max(k, 0) + 2` lines: the same border first and last,
      the bar-and-spaces row in between, all `n + 2` characters wide. */
  lemma BoxShape(n: nat, k: int)
    ensures |BoxLines(n, k)| == (if k > 0 then k else 0) + 2
    ensures BoxLines(n, k)[0] == Border(n) && BoxLines(n, k)[|BoxLines(n, k)| - 1] == Border(n)
    ensures forall i :: 0 < i < |BoxLines(n, k)| - 1 ==> BoxLines(n, k)[i] == Row(n)
    ensures forall i :: 0 <= i < |BoxLines(n, k)| ==> |BoxLines(n, k)[i]| == n + 2
  {
    RowsShape(n, k);
    var lines := BoxLines(n, k);
    forall i | 0 < i < |lines| - 1
      ensures lines[i] == Row(n)
    {
      assert lines[i] == Rows(n, k)[i - 1];
    }
  }

  /** A line that splits back out of joined text unchanged. */
  predicate PlainLine(line: string)
  {
    '\n' !in line && (line == [] || line[|line| - 1] != '\r')
  }

  /** A plain line and its line feed split off the front of the text. */
  lemma SplitFirstLine(l: string, rest: string)
    requires PlainLine(l)
    ensures SplitLines(l + "\n" + rest) == [l] + SplitLines(rest)
  {
    var t := l + "\n" + rest;
    forall k | 0 <= k < |l|
      ensures t[k] != '\n'
    {
      assert t[k] == l[k];
    }
    assert t[|l|] == '\n';
    assert t[..|l|] == l && t[|l| + 1..] == rest;
    SplitLinesAt(t, |l|);
  }

  /** Joined lines split on line feeds give the lines back, and the empty
      text after the final line feed. */
  lemma {:induction false} JoinSplit(lines: seq<string>)
    requires forall l :: l in lines ==> PlainLine(l)
    ensures SplitLines(Join(lines)) == lines + [""]
  {
    if lines != [] {
      var tail := lines[1..];
      assert forall l :: l in tail ==> l in lines;
      JoinSplit(tail);
      JoinSplitStep(lines[0], tail);
      assert lines == [lines[0]] + tail;
    }
  }

  lemma JoinSplitStep(l: string, tail: seq<string>)
    requires PlainLine(l)
    requires SplitLines(Join(tail)) == tail + [""]
    ensures SplitLines(Join([l] + tail)) == [l] + tail + [""]
  {
    JoinCons(l, tail);
    SplitFirstLine(l, Join(tail));
  }

  lemma JoinCons(l: string, tail: seq<string>)
    ensures Join([l] + tail) == l + "\n" + Join(tail)
  {
    assert ([l] + tail)[1..] == tail;
  }

  /** The box text splits into exactly its lines (and the empty text after
      the last line feed). */
  lemma BoxText(n: nat, k: int)
    ensures SplitLines(Join(BoxLines(n, k))) == BoxLines(n, k) + [""]
  {
    BoxShape(n, k);
    var lines := BoxLines(n, k);
    forall l | l in lines
      ensures PlainLine(l)
    {
      var i :| 0 <= i < |lines| && lines[i] == l;
      assert l == Border(n) || l == Row(n);
    }
    JoinSplit(lines);
  }
}
