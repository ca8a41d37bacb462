/** The grid game's search, stated as functions: the 4×4 board read from the
    board string, the paths the depth-first search may walk, the sequence of
    completions it meets in the order it meets them, the first-wins word map
    built from them and the ranked result list. `WordhuntWorker` computes the
    same thing with loops, arrays and recursion. */
module WordGrid {
  import opened Trie
  import opened Ranking

  const Size := 4
  const MinWordLength := 3
  /** Deepest recursion level the search enters (`depth > 16` returns). */
  const MaxDepth := 16
  const CellCount := Size * Size

  datatype Cell = Cell(row: int, col: int)

  /** A completion met by the search: a dictionary word and the path that spells it. */
  datatype FoundWord = FoundWord(word: string, path: seq<Cell>)

  /** The eight moves, in the order the search tries them. */
  const Directions: seq<(int, int)> :=
    [(-1, -1), (-1, 0), (-1, 1), (0, -1), (0, 1), (1, -1), (1, 0), (1, 1)]

  /** `isValidPosition`. */
  predicate InBounds(q: Cell)
  {
    0 <= q.row < Size && 0 <= q.col < Size
  }

  /** The cell reached from `q` by move number `d`. */
  function Move(q: Cell, d: nat): Cell
    requires d < |Directions|
  {
    Cell(q.row + Directions[d].0, q.col + Directions[d].1)
  }

  /** Two distinct cells that touch horizontally, vertically or diagonally. */
  predicate Adjacent(a: Cell, b: Cell)
  {
    a != b && -1 <= a.row - b.row <= 1 && -1 <= a.col - b.col <= 1
  }

  /** The eight moves reach exactly the adjacent cells. */
  lemma AdjacentIffMove(a: Cell, b: Cell)
    ensures Adjacent(a, b) <==> exists d :: 0 <= d < |Directions| && Move(a, d) == b
  {
    if Adjacent(a, b) {
      var dr, dc := b.row - a.row, b.col - a.col;
      var d := if dr == -1 then (if dc == -1 then 0 else if dc == 0 then 1 else 2)
               else if dr == 0 then (if dc == -1 then 3 else 4)
               else (if dc == -1 then 5 else if dc == 0 then 6 else 7);
      assert Move(a, d) == b;
    }
  }

  /** The cell at row `r`, column `c`, built from position `4r + c` of the
      board text: one character, or, when the board text is too short, the
      text "undefined" that JavaScript produces when it appends a missing
      string element. */
  function CellText(s: string, q: Cell): (t: string)
    ensures |t| == 1 || t == "undefined"
  {
    var k := Size * q.row + q.col;
    if 0 <= k < |s| then [s[k]] else "undefined"
  }

  /** The string the search has built after walking `path`. */
  function Spell(s: string, path: seq<Cell>): string
  {
    if path == [] then "" else Spell(s, path[..|path| - 1]) + CellText(s, path[|path| - 1])
  }

  /** A path the search may walk: on the board, no cell twice, every step to
      an adjacent cell. */
  predicate SimplePath(path: seq<Cell>)
  {
    && (forall i :: 0 <= i < |path| ==> InBounds(path[i]))
    && (forall i, j :: 0 <= i < j < |path| ==> path[i] != path[j])
    && (forall i :: 0 < i < |path| ==> Adjacent(path[i - 1], path[i]))
  }

  /** What `isPrefix` answers on a trie holding `words`. */
  ghost predicate IsTriePrefix(words: set<string>, w: string)
  {
    w == [] || HasWordWithPrefix(words, w)
  }

  /** The completions `recurse(q, word, visited, path, depth)` meets, in the
      order it meets them; `visited` is the set of cells of `path`. */
  ghost function Trace(s: string, words: set<string>, q: Cell, word: string, path: seq<Cell>, depth: int): seq<FoundWord>
    decreases MaxDepth + 1 - depth, |Directions| + 1
  {
    if depth > MaxDepth then []
    else if !InBounds(q) || q in path then []
    else
      var w := word + CellText(s, q);
      if !IsTriePrefix(words, w) then []
      else
        var p := path + [q];
        (if |w| >= MinWordLength && w in words then [FoundWord(w, p)] else [])
        + TraceDirs(s, words, q, w, p, depth, |Directions|)
  }

  /** The completions met by the first `n` recursive calls from cell `q`. */
  ghost function TraceDirs(s: string, words: set<string>, q: Cell, w: string, p: seq<Cell>, depth: int, n: nat): seq<FoundWord>
    requires depth <= MaxDepth && n <= |Directions|
    decreases MaxDepth + 1 - depth, n
  {
    if n == 0 then []
    else TraceDirs(s, words, q, w, p, depth, n - 1) + Trace(s, words, Move(q, n - 1), w, p, depth + 1)
  }

  /** The completions met by `recurse(row, col, "", visited, [], 1)`, the
      search from one start cell with nothing visited. */
  ghost function FromStart(s: string, words: set<string>, row: int, col: int): seq<FoundWord>
  {
    Trace(s, words, Cell(row, col), "", [], 1)
  }

  /** The completions met by the searches from the first `n` cells of `row`. */
  ghost function RowEvents(s: string, words: set<string>, row: int, n: nat): seq<FoundWord>
  {
    if n == 0 then [] else RowEvents(s, words, row, n - 1) + FromStart(s, words, row, n - 1)
  }

  /** The completions met by the searches from every cell of the first `m`
      rows, in row-major order. */
  ghost function SearchEvents(s: string, words: set<string>, m: nat): seq<FoundWord>
  {
    if m == 0 then [] else SearchEvents(s, words, m - 1) + RowEvents(s, words, m - 1, Size)
  }

  // The `found` map, as the sequence of its entries in insertion order.

  function HasKey(found: seq<FoundWord>, w: string): (b: bool)
    ensures b <==> exists i :: 0 <= i < |found| && found[i].word == w
  {
    if found == [] then false
    else found[|found| - 1].word == w || HasKey(found[..|found| - 1], w)
  }

  /** No word is a key twice. */
  predicate DistinctKeys(found: seq<FoundWord>)
  {
    forall i, j :: 0 <= i < j < |found| ==> found[i].word != found[j].word
  }

  /** `if (!found.has(w)) found.set(w, path)`. */
  function Add(found: seq<FoundWord>, e: FoundWord): seq<FoundWord>
  {
    if HasKey(found, e.word) then found else found + [e]
  }

  /** `Add` applied to the completions of `t`, in order. */
  function AddAll(found: seq<FoundWord>, t: seq<FoundWord>): seq<FoundWord>
  {
    if t == [] then found else Add(AddAll(found, t[..|t| - 1]), t[|t| - 1])
  }

  function WordOf(e: FoundWord): string
  {
    e.word
  }

  /** `findWordsInBoard(s)` on a trie holding `words`. */
  ghost function BoardResults(s: string, words: set<string>): seq<FoundWord>
  {
    SortByRank(AddAll([], SearchEvents(s, words, Size)), WordOf)
  }

  /** A result entry the source promises: a dictionary word of at least three
      characters, spelled by the board along a simple path. */
  ghost predicate GoodEntry(s: string, words: set<string>, e: FoundWord)
  {
    SimplePath(e.path) && e.word == Spell(s, e.path) && |e.word| >= MinWordLength && e.word in words
  }

  // ---------------------------------------------------------------------
  // The first-wins map

  /** `t[i]` is `e`, and no earlier completion of `t` has the same word. */
  ghost predicate FirstCompletion(t: seq<FoundWord>, i: int, e: FoundWord)
  {
    0 <= i < |t| && t[i] == e && forall j :: 0 <= j < i ==> t[j].word != e.word
  }

  lemma {:induction false} AddAllAppend(f: seq<FoundWord>, a: seq<FoundWord>, b: seq<FoundWord>)
    ensures AddAll(f, a + b) == AddAll(AddAll(f, a), b)
    decreases |b|
  {
    if b == [] {
      assert a + b == a;
    } else {
      assert (a + b)[..|a + b| - 1] == a + b[..|b| - 1];
      AddAllAppend(f, a, b[..|b| - 1]);
    }
  }

  /** The keys of the map are the keys it started with and the words met. */
  lemma {:induction false} AddAllKeys(f: seq<FoundWord>, t: seq<FoundWord>, w: string)
    ensures HasKey(AddAll(f, t), w) <==> HasKey(f, w) || HasKey(t, w)
  {
    if t != [] {
      var init := t[..|t| - 1];
      AddAllKeys(f, init, w);
      assert HasKey(t, w) == (t[|t| - 1].word == w || HasKey(init, w));
    }
  }

  lemma {:induction false} AddAllDistinct(f: seq<FoundWord>, t: seq<FoundWord>)
    requires DistinctKeys(f)
    ensures DistinctKeys(AddAll(f, t))
  {
    if t != [] {
      var g := AddAll(f, t[..|t| - 1]);
      var e := t[|t| - 1];
      AddAllDistinct(f, t[..|t| - 1]);
      if !HasKey(g, e.word) {
        var r := g + [e];
        forall i, j | 0 <= i < j < |r| ensures r[i].word != r[j].word {
          if j < |g| {
            assert r[i] == g[i] && r[j] == g[j];
          } else {
            assert r[i] == g[i];
          }
        }
      }
    }
  }

  /** Every entry of the map was already in it, or is the first completion of
      its word; a later completion of the same word never replaces it. */
  lemma {:induction false} AddAllFirst(f: seq<FoundWord>, t: seq<FoundWord>, e: FoundWord)
    requires e in AddAll(f, t)
    ensures e in f || (!HasKey(f, e.word) && exists i :: FirstCompletion(t, i, e))
  {
    if t != [] {
      var init := t[..|t| - 1];
      var g := AddAll(f, init);
      if e in g {
        AddAllFirst(f, init, e);
        if e !in f {
          var i :| FirstCompletion(init, i, e);
          assert t[i] == e;
          forall j | 0 <= j < i ensures t[j].word != e.word {
            assert t[j] == init[j];
          }
          assert FirstCompletion(t, i, e);
        }
      } else {
        assert e == t[|t| - 1] && !HasKey(g, e.word);
        AddAllKeys(f, init, e.word);
        forall j | 0 <= j < |t| - 1 ensures t[j].word != e.word {
          assert t[j] == init[j];
        }
        assert FirstCompletion(t, |t| - 1, e);
      }
    }
  }

  /** Every entry of the map is a completion that was met (or was already there). */
  lemma {:induction false} AddAllFrom(f: seq<FoundWord>, t: seq<FoundWord>, e: FoundWord)
    requires e in AddAll(f, t)
    ensures e in f || e in t
  {
    AddAllFirst(f, t, e);
    if e !in f {
      var i :| FirstCompletion(t, i, e);
    }
  }

  // ---------------------------------------------------------------------
  // Paths and spellings

  lemma {:induction false} SpellPrefix(s: string, a: seq<Cell>, b: seq<Cell>)
    ensures Spell(s, a) <= Spell(s, a + b)
    decreases |b|
  {
    if b == [] {
      assert a + b == a;
    } else {
      assert (a + b)[..|a + b| - 1] == a + b[..|b| - 1];
      SpellPrefix(s, a, b[..|b| - 1]);
    }
  }

  /** On a board string of at least 16 characters every cell holds one
      character, so a word is as long as its path. */
  lemma {:induction false} SpellLength(s: string, path: seq<Cell>)
    requires |s| >= CellCount
    requires forall i :: 0 <= i < |path| ==> InBounds(path[i])
    ensures |Spell(s, path)| == |path|
  {
    if path != [] {
      SpellLength(s, path[..|path| - 1]);
    }
  }

  /** Extending a simple path by an adjacent cell not on it keeps it simple. */
  lemma ExtendSimple(path: seq<Cell>, q: Cell)
    requires SimplePath(path) && InBounds(q) && q !in path
    requires path != [] ==> Adjacent(path[|path| - 1], q)
    ensures SimplePath(path + [q])
  {
    var p := path + [q];
    forall i, j | 0 <= i < j < |p| ensures p[i] != p[j] {
      if j == |path| {
        assert p[i] == path[i];
      }
    }
  }

  /** The cells of a sequence without repetitions are as many as its length. */
  lemma {:induction false} DistinctCard<T>(s: seq<T>)
    requires forall i, j :: 0 <= i < j < |s| ==> s[i] != s[j]
    ensures |set x | x in s| == |s|
  {
    if s != [] {
      var init := s[..|s| - 1];
      DistinctCard(init);
      assert (set x | x in s) == (set x | x in init) + {s[|s| - 1]};
    }
  }

  /** The sixteen cells of the board. */
  const AllCells: set<Cell> := {
    Cell(0, 0), Cell(0, 1), Cell(0, 2), Cell(0, 3),
    Cell(1, 0), Cell(1, 1), Cell(1, 2), Cell(1, 3),
    Cell(2, 0), Cell(2, 1), Cell(2, 2), Cell(2, 3),
    Cell(3, 0), Cell(3, 1), Cell(3, 2), Cell(3, 3)}

  lemma AllCellsCard()
    ensures |AllCells| == 16
  {
  }

  lemma AllCellsCover(q: Cell)
    requires InBounds(q)
    ensures q in AllCells
  {
  }

  /** A simple path has at most sixteen cells. */
  lemma PathBound(path: seq<Cell>)
    requires SimplePath(path)
    ensures |path| <= CellCount
  {
    AllCellsCard();
    DistinctCard(path);
    var ps := set x | x in path;
    var all := AllCells;
    forall x | x in ps ensures x in all {
      AllCellsCover(x);
    }
    assert all == ps + (all - ps);
  }

  /** The depth cap cuts nothing: a call at depth 17 comes from a simple path
      of sixteen cells, which covers the whole board, so the visited check
      would have rejected every move anyway. */
  lemma CapNeverCuts(path: seq<Cell>, q: Cell)
    requires SimplePath(path) && |path| >= MaxDepth && InBounds(q)
    ensures q in path
  {
    AllCellsCard();
    DistinctCard(path);
    var ps := set x | x in path;
    var all := AllCells;
    forall x | x in ps ensures x in all {
      AllCellsCover(x);
    }
    assert all == ps + (all - ps);
    assert all - ps == {};
    AllCellsCover(q);
  }

  // ---------------------------------------------------------------------
  // Soundness of the search

  lemma {:induction false} TraceSound(s: string, words: set<string>, q: Cell, word: string, path: seq<Cell>, depth: int)
    requires SimplePath(path) && word == Spell(s, path)
    requires path != [] ==> Adjacent(path[|path| - 1], q)
    ensures forall e :: e in Trace(s, words, q, word, path, depth) ==> GoodEntry(s, words, e)
    decreases MaxDepth + 1 - depth, |Directions| + 1
  {
    if depth <= MaxDepth && InBounds(q) && q !in path {
      var w := word + CellText(s, q);
      if IsTriePrefix(words, w) {
        var p := path + [q];
        ExtendSimple(path, q);
        assert p[..|p| - 1] == path;
        assert Spell(s, p) == w;
        TraceDirsSound(s, words, q, w, p, depth, |Directions|);
      }
    }
  }

  lemma {:induction false} TraceDirsSound(s: string, words: set<string>, q: Cell, w: string, p: seq<Cell>, depth: int, n: nat)
    requires depth <= MaxDepth && n <= |Directions|
    requires SimplePath(p) && p != [] && p[|p| - 1] == q && w == Spell(s, p)
    ensures forall e :: e in TraceDirs(s, words, q, w, p, depth, n) ==> GoodEntry(s, words, e)
    decreases MaxDepth + 1 - depth, n
  {
    if n > 0 {
      TraceDirsSound(s, words, q, w, p, depth, n - 1);
      AdjacentIffMove(q, Move(q, n - 1));
      TraceSound(s, words, Move(q, n - 1), w, p, depth + 1);
    }
  }

  lemma {:induction false} RowSound(s: string, words: set<string>, row: int, n: nat)
    ensures forall e :: e in RowEvents(s, words, row, n) ==> GoodEntry(s, words, e)
  {
    if n > 0 {
      RowSound(s, words, row, n - 1);
      TraceSound(s, words, Cell(row, n - 1), "", [], 1);
    }
  }

  lemma {:induction false} SearchSound(s: string, words: set<string>, m: nat)
    ensures forall e :: e in SearchEvents(s, words, m) ==> GoodEntry(s, words, e)
  {
    if m > 0 {
      SearchSound(s, words, m - 1);
      RowSound(s, words, m - 1, Size);
    }
  }

  // ---------------------------------------------------------------------
  // Completeness of the search

  lemma {:induction false} TraceDirsContains(s: string, words: set<string>, q: Cell, w: string, p: seq<Cell>, depth: int, n: nat, d: nat)
    requires depth <= MaxDepth && d < n <= |Directions|
    ensures forall e :: e in Trace(s, words, Move(q, d), w, p, depth + 1) ==> e in TraceDirs(s, words, q, w, p, depth, n)
  {
    if d < n - 1 {
      TraceDirsContains(s, words, q, w, p, depth, n - 1, d);
    }
  }

  /** Appending a cell to a path appends its text to the spelling. */
  lemma SpellSnoc(s: string, path: seq<Cell>, q: Cell)
    ensures Spell(s, path + [q]) == Spell(s, path) + CellText(s, q)
  {
    var p := path + [q];
    assert p[..|p| - 1] == path;
  }

  /** The cell number `k` of a simple path is on the board, is not among the
      cells before it, and is entered at a depth the cap allows. */
  lemma EnterCell(full: seq<Cell>, k: nat)
    requires SimplePath(full) && k < |full|
    ensures k + 1 <= MaxDepth && InBounds(full[k]) && full[k] !in full[..k]
  {
    PathBound(full);
    forall i | 0 <= i < k ensures full[..k][i] != full[k] {
      assert full[..k][i] == full[i];
    }
  }

  /** The string built along a starting piece of a path that spells a
      dictionary word is a trie prefix. */
  lemma SpelledPrefix(s: string, words: set<string>, full: seq<Cell>, k: nat)
    requires k <= |full| && Spell(s, full) in words
    ensures IsTriePrefix(words, Spell(s, full[..k]))
  {
    assert full == full[..k] + full[k..];
    SpellPrefix(s, full[..k], full[k..]);
  }

  /** A call that passes every check records its completion, if any, and then
      makes the eight recursive calls. */
  lemma TraceEnters(s: string, words: set<string>, q: Cell, word: string, path: seq<Cell>, depth: int, w: string)
    requires depth <= MaxDepth && InBounds(q) && q !in path
    requires w == word + CellText(s, q) && IsTriePrefix(words, w)
    ensures Trace(s, words, q, word, path, depth) ==
      (if |w| >= MinWordLength && w in words then [FoundWord(w, path + [q])] else [])
      + TraceDirs(s, words, q, w, path + [q], depth, |Directions|)
  {
  }

  /** Along a simple path spelling a dictionary word, the search that has
      walked the first `k` cells enters cell `k`. */
  lemma WalkEnters(s: string, words: set<string>, full: seq<Cell>, k: nat)
    requires SimplePath(full) && k < |full| && Spell(s, full) in words
    ensures k + 1 <= MaxDepth && Trace(s, words, full[k], Spell(s, full[..k]), full[..k], k + 1) ==
      (if |Spell(s, full[..k + 1])| >= MinWordLength && Spell(s, full[..k + 1]) in words
       then [FoundWord(Spell(s, full[..k + 1]), full[..k + 1])] else [])
      + TraceDirs(s, words, full[k], Spell(s, full[..k + 1]), full[..k + 1], k + 1, |Directions|)
  {
    var path, q := full[..k], full[k];
    EnterCell(full, k);
    assert full[..k + 1] == path + [q];
    SpellSnoc(s, path, q);
    SpelledPrefix(s, words, full, k + 1);
    TraceEnters(s, words, q, Spell(s, path), path, k + 1, Spell(s, path + [q]));
  }

  /** The call for cell `k + 1` of a simple path is one of the eight calls made
      from cell `k`. */
  lemma WalkStep(s: string, words: set<string>, full: seq<Cell>, k: nat, e: FoundWord)
    requires SimplePath(full) && k + 1 < |full|
    requires e in Trace(s, words, full[k + 1], Spell(s, full[..k + 1]), full[..k + 1], k + 2)
    ensures k + 1 <= MaxDepth
      && e in TraceDirs(s, words, full[k], Spell(s, full[..k + 1]), full[..k + 1], k + 1, |Directions|)
  {
    EnterCell(full, k + 1);
    assert Adjacent(full[k], full[k + 1]);
    AdjacentIffMove(full[k], full[k + 1]);
    var d :| 0 <= d < |Directions| && Move(full[k], d) == full[k + 1];
    TraceDirsContains(s, words, full[k], Spell(s, full[..k + 1]), full[..k + 1], k + 1, |Directions|, d);
  }

  /** Every simple path that spells a dictionary word of at least three
      characters is met by the search that has walked its first `k` cells:
      every prefix of that word is a trie prefix, so pruning never stops it. */
  lemma {:induction false} TraceComplete(s: string, words: set<string>, full: seq<Cell>, k: nat)
    requires SimplePath(full) && k < |full|
    requires Spell(s, full) in words && |Spell(s, full)| >= MinWordLength
    ensures FoundWord(Spell(s, full), full) in Trace(s, words, full[k], Spell(s, full[..k]), full[..k], k + 1)
    decreases |full| - k
  {
    WalkEnters(s, words, full, k);
    if k + 1 < |full| {
      TraceComplete(s, words, full, k + 1);
      WalkStep(s, words, full, k, FoundWord(Spell(s, full), full));
    } else {
      assert full[..k + 1] == full;
    }
  }

  lemma {:induction false} RowContains(s: string, words: set<string>, row: int, col: nat, n: nat)
    requires col < n
    ensures forall e :: e in FromStart(s, words, row, col) ==> e in RowEvents(s, words, row, n)
  {
    if col < n - 1 {
      RowContains(s, words, row, col, n - 1);
    }
  }

  lemma {:induction false} SearchContains(s: string, words: set<string>, row: nat, m: nat)
    requires row < m
    ensures forall e :: e in RowEvents(s, words, row, Size) ==> e in SearchEvents(s, words, m)
  {
    if row < m - 1 {
      SearchContains(s, words, row, m - 1);
    }
  }

  lemma SearchComplete(s: string, words: set<string>, q: seq<Cell>)
    requires SimplePath(q) && q != []
    requires Spell(s, q) in words && |Spell(s, q)| >= MinWordLength
    ensures FoundWord(Spell(s, q), q) in SearchEvents(s, words, Size)
  {
    var e := FoundWord(Spell(s, q), q);
    assert InBounds(q[0]);
    assert e in FromStart(s, words, q[0].row, q[0].col) by {
      assert q[..0] == [] && Spell(s, []) == "";
      TraceComplete(s, words, q, 0);
    }
    RowContains(s, words, q[0].row, q[0].col, Size);
    SearchContains(s, words, q[0].row, Size);
  }

  // ---------------------------------------------------------------------
  // The results

  /** Every result is a dictionary word of at least three characters, equal
      to the board letters read along its simple path; on a full board the
      path has one cell per character. */
  lemma BoardResultsSound(s: string, words: set<string>)
    ensures forall e :: e in BoardResults(s, words) ==> GoodEntry(s, words, e)
    ensures |s| >= CellCount ==> forall e :: e in BoardResults(s, words) ==> |e.word| == |e.path|
  {
    var events := SearchEvents(s, words, Size);
    var found := AddAll([], events);
    SortByRankCorrect(found, WordOf);
    SearchSound(s, words, Size);
    forall e | e in BoardResults(s, words) ensures GoodEntry(s, words, e) {
      assert e in multiset(found);
      AddAllFrom([], events, e);
    }
    if |s| >= CellCount {
      forall e | e in BoardResults(s, words) ensures |e.word| == |e.path| {
        SpellLength(s, e.path);
      }
    }
  }

  /** Every dictionary word of at least three characters that some simple path
      spells is among the results. */
  lemma BoardResultsComplete(s: string, words: set<string>, q: seq<Cell>)
    requires SimplePath(q) && q != []
    requires Spell(s, q) in words && |Spell(s, q)| >= MinWordLength
    ensures exists e :: e in BoardResults(s, words) && e.word == Spell(s, q)
  {
    var events := SearchEvents(s, words, Size);
    var found := AddAll([], events);
    SearchComplete(s, words, q);
    var i :| 0 <= i < |events| && events[i] == FoundWord(Spell(s, q), q);
    AddAllKeys([], events, Spell(s, q));
    var j :| 0 <= j < |found| && found[j].word == Spell(s, q);
    SortByRankCorrect(found, WordOf);
    assert found[j] in multiset(BoardResults(s, words));
  }

  /** Each word appears once, and the results are in ranking order: longer
      words first, equal lengths in ascending order. */
  lemma BoardResultsOrdered(s: string, words: set<string>)
    ensures forall i, j :: 0 <= i < j < |BoardResults(s, words)| ==>
      Precedes(BoardResults(s, words)[i].word, BoardResults(s, words)[j].word)
  {
    var found := AddAll([], SearchEvents(s, words, Size));
    AddAllDistinct([], SearchEvents(s, words, Size));
    assert DistinctBy(found, WordOf);
    SortByRankStrict(found, WordOf);
  }

  /** Each result carries the path of the first completion of its word in the
      search order: row-major start cells, moves in the order of `Directions`. */
  lemma BoardResultsFirstPath(s: string, words: set<string>, e: FoundWord)
    requires e in BoardResults(s, words)
    ensures exists i :: FirstCompletion(SearchEvents(s, words, Size), i, e)
  {
    var events := SearchEvents(s, words, Size);
    var found := AddAll([], events);
    SortByRankCorrect(found, WordOf);
    assert e in multiset(found);
    AddAllFirst([], events, e);
  }

  /** With an empty dictionary no string is a trie prefix, so nothing is found. */
  lemma BoardResultsEmptyDictionary(s: string)
    ensures BoardResults(s, {}) == []
  {
    EmptySearch(s, {}, Size);
    assert |AddAll([], SearchEvents(s, {}, Size))| == 0;
  }

  lemma TraceEmptyDictionary(s: string, words: set<string>, q: Cell, word: string, path: seq<Cell>, depth: int)
    requires words == {}
    ensures |Trace(s, words, q, word, path, depth)| == 0
  {
    var w := word + CellText(s, q);
    assert w != [] && !HasWordWithPrefix(words, w);
  }

  lemma {:induction false} EmptyRow(s: string, words: set<string>, row: int, n: nat)
    requires words == {}
    ensures |RowEvents(s, words, row, n)| == 0
  {
    if n > 0 {
      EmptyRow(s, words, row, n - 1);
      TraceEmptyDictionary(s, words, Cell(row, n - 1), "", [], 1);
    }
  }

  lemma {:induction false} EmptySearch(s: string, words: set<string>, m: nat)
    requires words == {}
    ensures |SearchEvents(s, words, m)| == 0
  {
    if m > 0 {
      EmptySearch(s, words, m - 1);
      EmptyRow(s, words, m - 1, Size);
    }
  }
}
