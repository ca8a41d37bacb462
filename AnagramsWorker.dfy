/** The letter game's worker: `findWordsFromLetters`, which keeps every
    dictionary word of at least three characters that the given letters can
    spell, without duplicates, in ranking order; and the message handler
    that keeps the dictionary and the trie between messages. */
module AnagramsWorker {
  import opened Wrappers
  import opened Trie
  import opened Ranking

  const MinWordLength := 3

  /** `m` is a frequency table of `s`: its keys are the values occurring in
      `s`, each mapped to its number of occurrences. */
  ghost predicate Counts<T(!new)>(m: map<T, nat>, s: seq<T>)
  {
    && (forall x :: x in m <==> x in multiset(s))
    && (forall x :: x in m ==> m[x] == multiset(s)[x])
  }

  /** The frequency loops `count[x] = (count[x] || 0) + 1`, over the letters
      (keys are the letter strings) and over the characters of a word. */
  method CountOccurrences<T(!new)>(s: seq<T>) returns (m: map<T, nat>)
    ensures Counts(m, s)
  {
    m := map[];
    for i := 0 to |s|
      invariant Counts(m, s[..i])
    {
      assert s[..i + 1] == s[..i] + [s[i]];
      m := m[s[i] := (if s[i] in m then m[s[i]] else 0) + 1];
    }
    assert s[..|s|] == s;
  }

  /** Every character of `w` occurs in `w` no more often than the one-character
      string of it occurs among the letters. A letter entry of any other
      length never matches a character. */
  ghost predicate Fits(letters: seq<string>, w: string)
  {
    forall c :: c in multiset(w) ==> multiset(w)[c] <= multiset(letters)[[c]]
  }

  /** `canMakeWord(word)`, given the frequency table of the letters: counts the
      word's characters, then rejects the word as soon as one character is
      missing from the letters (a missing or zero count is falsy) or occurs
      among them too rarely. */
  method CanMakeWord(word: string, letterCount: map<string, nat>, ghost letters: seq<string>) returns (b: bool)
    requires Counts(letterCount, letters)
    ensures b <==> Fits(letters, word)
  {
    var wordLetterCount := CountOccurrences(word);
    var pending := wordLetterCount.Keys;
    while pending != {}
      invariant pending <= wordLetterCount.Keys
      invariant forall c :: c in wordLetterCount && c !in pending ==> multiset(word)[c] <= multiset(letters)[[c]]
      decreases |pending|
    {
      var c :| c in pending;
      var count := wordLetterCount[c];
      if [c] !in letterCount || letterCount[[c]] == 0 || letterCount[[c]] < count {
        assert c in multiset(word) && multiset(word)[c] > multiset(letters)[[c]];
        return false;
      }
      pending := pending - {c};
    }
    return true;
  }

  /** A dictionary entry the search keeps. */
  ghost predicate Wanted(letters: seq<string>, dict: set<string>, w: string)
  {
    |w| >= MinWordLength && Fits(letters, w) && w in dict
  }

  /** The `found` set after the loop has looked at `words`: the wanted words,
      each once, in the order of their first occurrence. */
  ghost function Kept(letters: seq<string>, dict: set<string>, words: seq<string>): seq<string>
  {
    if words == [] then []
    else
      var k := Kept(letters, dict, words[..|words| - 1]);
      var w := words[|words| - 1];
      if Wanted(letters, dict, w) && w !in k then k + [w] else k
  }

  function Self(w: string): string
  {
    w
  }

  /** `findWordsFromLetters(letters)` over the word list `words` and a trie
      holding `dict`. */
  ghost function LetterResults(letters: seq<string>, dict: set<string>, words: seq<string>): seq<string>
  {
    SortByRank(Kept(letters, dict, words), Self)
  }

  /** The search itself: one frequency table for the letters, then every
      word of the list tested in order (length first, then the letters, then
      the trie) and added to the `found` set, then the set sorted. */
  method FindWordsFromLetters(letters: seq<string>, words: seq<string>, trie: Trie) returns (result: seq<string>)
    requires trie.Valid()
    ensures result == LetterResults(letters, trie.Words, words)
  {
    var letterCount := CountOccurrences(letters);
    var found: seq<string> := [];
    for i := 0 to |words|
      invariant found == Kept(letters, trie.Words, words[..i])
    {
      var word := words[i];
      assert words[..i + 1][..i] == words[..i];
      var keep := false;
      if |word| >= MinWordLength {
        keep := CanMakeWord(word, letterCount, letters);
        if keep {
          keep := trie.IsWord(word);
        }
      }
      if keep && word !in found {
        found := found + [word];
      }
    }
    assert words[..|words|] == words;
    result := SortByRank(found, Self);
  }

  // ---------------------------------------------------------------------
  // Properties of the results

  lemma {:induction false} KeptMembers(letters: seq<string>, dict: set<string>, words: seq<string>, w: string)
    ensures w in Kept(letters, dict, words) <==> w in words && Wanted(letters, dict, w)
  {
    if words != [] {
      var init := words[..|words| - 1];
      KeptMembers(letters, dict, init, w);
      assert words == init + [words[|words| - 1]];
    }
  }

  lemma {:induction false} KeptDistinct(letters: seq<string>, dict: set<string>, words: seq<string>)
    ensures DistinctBy(Kept(letters, dict, words), Self)
  {
    if words != [] {
      var k := Kept(letters, dict, words[..|words| - 1]);
      KeptDistinct(letters, dict, words[..|words| - 1]);
      var w := words[|words| - 1];
      if Wanted(letters, dict, w) && w !in k {
        var r := k + [w];
        forall i, j | 0 <= i < j < |r| ensures Self(r[i]) != Self(r[j]) {
          if j < |k| {
            assert r[i] == k[i] && r[j] == k[j];
          } else {
            assert r[i] == k[i];
          }
        }
      }
    }
  }

  /** A word is a result exactly when it is in the list, has at least three
      characters, can be spelled from the letters and is a trie word. */
  lemma LetterResultsMembers(letters: seq<string>, dict: set<string>, words: seq<string>, w: string)
    ensures w in LetterResults(letters, dict, words) <==>
      w in words && |w| >= MinWordLength && Fits(letters, w) && w in dict
  {
    SortByRankCorrect(Kept(letters, dict, words), Self);
    KeptMembers(letters, dict, words, w);
    assert w in LetterResults(letters, dict, words) <==> w in multiset(LetterResults(letters, dict, words));
    assert w in Kept(letters, dict, words) <==> w in multiset(Kept(letters, dict, words));
  }

  /** The results hold each word once, longer words first and words of equal
      length in ascending order, even when the list repeats a word. */
  lemma LetterResultsOrdered(letters: seq<string>, dict: set<string>, words: seq<string>)
    ensures forall i, j :: 0 <= i < j < |LetterResults(letters, dict, words)| ==>
      Precedes(LetterResults(letters, dict, words)[i], LetterResults(letters, dict, words)[j])
  {
    KeptDistinct(letters, dict, words);
    SortByRankStrict(Kept(letters, dict, words), Self);
  }

  /** Each character of a result occurs among the letters at least as often as in the word. */
  lemma LetterResultsFit(letters: seq<string>, dict: set<string>, words: seq<string>, w: string, c: char)
    requires w in LetterResults(letters, dict, words) && c in w
    ensures multiset(w)[c] <= multiset(letters)[[c]]
  {
    LetterResultsMembers(letters, dict, words, w);
    assert c in multiset(w);
  }

  /** A word with a character absent from the letters is never a result. */
  lemma MissingLetterRejects(letters: seq<string>, dict: set<string>, words: seq<string>, w: string, c: char)
    requires c in w && [c] !in letters
    ensures w !in LetterResults(letters, dict, words)
  {
    LetterResultsMembers(letters, dict, words, w);
    assert c in multiset(w) && multiset(letters)[[c]] == 0;
  }

  /** An empty word list gives no results. */
  lemma LetterResultsEmptyList(letters: seq<string>, dict: set<string>)
    ensures LetterResults(letters, dict, []) == []
  {
  }

  // ---------------------------------------------------------------------
  // The message handler

  datatype Message = Init(words: seq<string>) | Search(letters: seq<string>) | Other

  datatype Reply =
    | InitDone(success: bool)
    | SearchDone(words: seq<string>, error: Option<string>)
    | NoReply

  /** The worker's module state `WORDS` and `TRIE_ROOT`, and `self.onmessage`. */
  class Worker {
    var words: seq<string>
    var trieRoot: Trie?
    ghost var Repr: set<object>

    ghost predicate Valid()
      reads this, Repr
    {
      trieRoot != null ==>
        && trieRoot in Repr && trieRoot.Repr <= Repr
        && trieRoot.Valid() && trieRoot.Words == set w | w in words
    }

    constructor ()
      ensures Valid() && words == [] && trieRoot == null
    {
      words := [];
      trieRoot := null;
      Repr := {};
    }

    /** `init` replaces the word list and the trie and reports success (an
        empty list still gives a trie, so later searches answer no words and
        no error); `search` before `init` answers no words and the error
        "Trie not initialized"; afterwards it answers the ranked results;
        any other message is ignored. */
    method OnMessage(m: Message) returns (reply: Reply)
      requires Valid()
      modifies this
      ensures Valid()
      ensures m.Init? ==>
        && words == m.words && trieRoot != null && fresh(trieRoot)
        && trieRoot.Words == (set w | w in m.words) && reply == InitDone(true)
      ensures m.Search? && old(trieRoot) == null ==>
        reply == SearchDone([], Some("Trie not initialized"))
      ensures m.Search? && old(trieRoot) != null ==>
        trieRoot != null && reply == SearchDone(LetterResults(m.letters, trieRoot.Words, words), None)
      ensures !m.Init? ==> words == old(words) && trieRoot == old(trieRoot) && Repr == old(Repr)
      ensures m.Other? ==> reply == NoReply
    {
      match m {
        case Init(ws) =>
          words := ws;
          var t := BuildTrie(ws);
          trieRoot := t;
          Repr := {t} + t.Repr;
          reply := InitDone(true);
        case Search(letters) =>
          if trieRoot == null {
            reply := SearchDone([], Some("Trie not initialized"));
            return;
          }
          var results := FindWordsFromLetters(letters, words, trieRoot);
          reply := SearchDone(results, None);
        case Other =>
          reply := NoReply;
      }
    }
  }

  /** In the worker the trie holds exactly the word list, so the trie test
      never rejects a word that passed the other two. */
  lemma WorkerResultsMembers(letters: seq<string>, words: seq<string>, w: string)
    ensures w in LetterResults(letters, (set v | v in words), words) <==>
      w in words && |w| >= MinWordLength && Fits(letters, w)
  {
    LetterResultsMembers(letters, (set v | v in words), words, w);
  }
}
