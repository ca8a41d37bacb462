/** The grid game's worker: `findWordsInBoard` as the source runs it (a board
    array filled by nested loops, a shared `visited` matrix, a `path` stack
    pushed and popped around each recursive call, a first-wins `found` map),
    proved to compute `WordGrid.BoardResults`; and the message handler that
    keeps the dictionary and the trie between messages. */
module WordhuntWorker {
  import opened Wrappers
  import opened Trie
  import opened Ranking
  import opened WordGrid

  /** `AddAll` of a single completion is one `Add`. */
  lemma AddAllSingle(f: seq<FoundWord>, e: FoundWord)
    ensures AddAll(f, [e]) == Add(f, e)
  {
    assert [e][..0] == [];
  }

  /** Adding the completions of the first `d + 1` moves is adding those of
      the first `d`, then those of move `d`. */
  lemma AddAllDirs(f: seq<FoundWord>, s: string, words: set<string>, q: Cell, w: string, p: seq<Cell>, depth: int, d: nat)
    requires depth <= MaxDepth && d < |Directions|
    ensures AddAll(f, TraceDirs(s, words, q, w, p, depth, d + 1))
      == AddAll(AddAll(f, TraceDirs(s, words, q, w, p, depth, d)), Trace(s, words, Move(q, d), w, p, depth + 1))
  {
    AddAllAppend(f, TraceDirs(s, words, q, w, p, depth, d), Trace(s, words, Move(q, d), w, p, depth + 1));
  }

  /** The 4×4 board array: row `i`, column `j` holds the character of the
      board text at position `4i + j`. */
  method BuildBoard(boardString: string) returns (board: array2<string>)
    ensures fresh(board) && board.Length0 == Size && board.Length1 == Size
    ensures forall r, c :: 0 <= r < Size && 0 <= c < Size ==> board[r, c] == CellText(boardString, Cell(r, c))
  {
    board := new string[Size, Size];
    for i := 0 to Size
      invariant forall r, c :: 0 <= r < i && 0 <= c < Size ==> board[r, c] == CellText(boardString, Cell(r, c))
    {
      for j := 0 to Size
        invariant forall r, c :: 0 <= r < i && 0 <= c < Size ==> board[r, c] == CellText(boardString, Cell(r, c))
        invariant forall c :: 0 <= c < j ==> board[i, c] == CellText(boardString, Cell(i, c))
      {
        var k := i * Size + j;
        board[i, j] := if k < |boardString| then [boardString[k]] else "undefined";
      }
    }
  }

  /** The state `recurse` shares with `findWordsInBoard`: the board, the trie,
      the `found` map (its entries in insertion order) and the `path` stack. */
  class BoardSearch {
    const trie: Trie
    const s: string
    const board: array2<string>
    var found: seq<FoundWord>
    var path: seq<Cell>

    ghost predicate Valid()
      reads trie, trie.Repr, board
    {
      && trie.Valid()
      && board.Length0 == Size && board.Length1 == Size
      && forall r, c :: 0 <= r < Size && 0 <= c < Size ==> board[r, c] == CellText(s, Cell(r, c))
    }

    constructor (boardString: string, t: Trie)
      requires t.Valid()
      ensures Valid() && s == boardString && trie == t && fresh(board)
      ensures found == [] && path == []
    {
      s := boardString;
      trie := t;
      var b := BuildBoard(boardString);
      board := b;
      found := [];
      path := [];
    }

    /** `visited[r][c]` marks exactly the cells on the path stack. */
    ghost predicate Marked(visited: array2<bool>, p: seq<Cell>)
      reads visited
      requires visited.Length0 == Size && visited.Length1 == Size
    {
      forall r, c :: 0 <= r < Size && 0 <= c < Size ==> (visited[r, c] <==> Cell(r, c) in p)
    }

    /** `recurse(row, col, word, visited, path, depth)`: adds to `found` the
        completions `Trace` lists, in order, and leaves `visited` and `path`
        as they were on entry. The checks that return early are here; the
        work on an accepted cell is in `Enter`. */
    method Recurse(row: int, col: int, word: string, visited: array2<bool>, depth: int)
      requires Valid() && visited.Length0 == Size && visited.Length1 == Size
      requires Marked(visited, path)
      modifies this, visited
      ensures found == AddAll(old(found), Trace(s, trie.Words, Cell(row, col), word, old(path), depth))
      ensures path == old(path)
      ensures forall r, c :: 0 <= r < Size && 0 <= c < Size ==> visited[r, c] == old(visited[r, c])
      decreases MaxDepth + 1 - depth, 3
    {
      if depth > MaxDepth {
        return;
      }
      if !(0 <= row < Size && 0 <= col < Size) || visited[row, col] {
        return;
      }
      var currentWord := word + board[row, col];
      var pre := trie.IsPrefix(currentWord);
      if !pre {
        return;
      }
      Enter(row, col, currentWord, visited, depth);
      TraceEnters(s, trie.Words, Cell(row, col), word, path, depth, currentWord);
    }

    /** The rest of `recurse` on a cell that passed the checks: mark it
        visited, push it, record a completion, try the eight moves, then
        unmark and pop. */
    method Enter(row: int, col: int, currentWord: string, visited: array2<bool>, depth: int)
      requires Valid() && visited.Length0 == Size && visited.Length1 == Size
      requires Marked(visited, path)
      requires depth <= MaxDepth && 0 <= row < Size && 0 <= col < Size && !visited[row, col]
      modifies this, visited
      ensures found == AddAll(old(found),
        (if |currentWord| >= MinWordLength && currentWord in trie.Words
         then [FoundWord(currentWord, old(path) + [Cell(row, col)])] else [])
        + TraceDirs(s, trie.Words, Cell(row, col), currentWord, old(path) + [Cell(row, col)], depth, |Directions|))
      ensures path == old(path)
      ensures forall r, c :: 0 <= r < Size && 0 <= c < Size ==> visited[r, c] == old(visited[r, c])
      decreases MaxDepth + 1 - depth, 2
    {
      ghost var f0, p0 := found, path;
      Push(row, col, visited);
      ghost var head := if |currentWord| >= MinWordLength && currentWord in trie.Words
        then [FoundWord(currentWord, path)] else [];
      Record(currentWord);
      Explore(row, col, currentWord, visited, depth);
      Pop(row, col, visited);
      AddAllAppend(f0, head, TraceDirs(s, trie.Words, Cell(row, col), currentWord, p0 + [Cell(row, col)], depth, |Directions|));
    }

    /** Marks the cell visited and pushes it on the path stack. */
    method Push(row: int, col: int, visited: array2<bool>)
      requires visited.Length0 == Size && visited.Length1 == Size
      requires Marked(visited, path) && 0 <= row < Size && 0 <= col < Size
      modifies this, visited
      ensures path == old(path) + [Cell(row, col)] && found == old(found)
      ensures Marked(visited, path)
    {
      visited[row, col] := true;
      path := path + [Cell(row, col)];
    }

    /** Unmarks the cell and pops it from the path stack, undoing `Push`. */
    method Pop(row: int, col: int, visited: array2<bool>)
      requires visited.Length0 == Size && visited.Length1 == Size
      requires path != [] && path[|path| - 1] == Cell(row, col) && Cell(row, col) !in path[..|path| - 1]
      requires Marked(visited, path) && 0 <= row < Size && 0 <= col < Size
      modifies this, visited
      ensures path == old(path)[..|old(path)| - 1] && found == old(found)
      ensures Marked(visited, path)
    {
      path := path[..|path| - 1];
      visited[row, col] := false;
    }

    /** The loop over the eight moves: one recursive call per move, in the
        order of `Directions`, from the cell on top of the path stack. */
    method Explore(row: int, col: int, currentWord: string, visited: array2<bool>, depth: int)
      requires Valid() && visited.Length0 == Size && visited.Length1 == Size
      requires Marked(visited, path) && depth <= MaxDepth
      modifies this, visited
      ensures found == AddAll(old(found), TraceDirs(s, trie.Words, Cell(row, col), currentWord, path, depth, |Directions|))
      ensures path == old(path) && Marked(visited, path)
      decreases MaxDepth + 1 - depth, 1
    {
      ghost var f1 := found;
      for d := 0 to |Directions|
        invariant path == old(path) && Marked(visited, path)
        invariant found == AddAll(f1, TraceDirs(s, trie.Words, Cell(row, col), currentWord, path, depth, d))
      {
        Try(row, col, currentWord, visited, depth, d);
        AddAllDirs(f1, s, trie.Words, Cell(row, col), currentWord, path, depth, d);
      }
    }

    /** One pass of the loop: the recursive call for move `d`. */
    method Try(row: int, col: int, currentWord: string, visited: array2<bool>, depth: int, d: nat)
      requires Valid() && visited.Length0 == Size && visited.Length1 == Size
      requires Marked(visited, path) && depth <= MaxDepth && d < |Directions|
      modifies this, visited
      ensures found == AddAll(old(found), Trace(s, trie.Words, Move(Cell(row, col), d), currentWord, path, depth + 1))
      ensures path == old(path) && Marked(visited, path)
      decreases MaxDepth + 1 - depth, 0
    {
      var next := Move(Cell(row, col), d);
      Recurse(next.row, next.col, currentWord, visited, depth + 1);
    }

    /** One pass of the start loops: a search from `(row, col)` with the
        empty word, a fresh all-false `visited` matrix, an empty path and
        depth 1. */
    method SearchFrom(row: int, col: int)
      requires Valid() && path == []
      modifies this
      ensures path == [] && found == AddAll(old(found), FromStart(s, trie.Words, row, col))
    {
      var visited := new bool[Size, Size]((_, _) => false);
      Recurse(row, col, "", visited, 1);
    }

    /** Records a completion: a string of at least three characters that the
        trie holds as a word is added to `found`, with a copy of the path,
        unless it is already a key. */
    method Record(currentWord: string)
      requires Valid()
      modifies this
      ensures path == old(path)
      ensures found == AddAll(old(found),
        if |currentWord| >= MinWordLength && currentWord in trie.Words then [FoundWord(currentWord, path)] else [])
    {
      var complete := false;
      if |currentWord| >= MinWordLength {
        complete := trie.IsWord(currentWord);
      }
      if complete {
        AddAllSingle(found, FoundWord(currentWord, path));
        if !HasKey(found, currentWord) {
          found := found + [FoundWord(currentWord, path)];
        }
      }
    }
  }

  /** `findWordsInBoard(boardString)`: one search from every cell in row-major
      order, each with a fresh `visited` matrix and an empty path, then the
      entries of `found` sorted by the ranking. */
  method FindWordsInBoard(boardString: string, trie: Trie) returns (result: seq<FoundWord>)
    requires trie.Valid()
    ensures result == BoardResults(boardString, trie.Words)
  {
    var search := new BoardSearch(boardString, trie);
    for row := 0 to Size
      invariant search.Valid() && search.s == boardString && search.trie == trie
      invariant search.path == [] && search.found == AddAll([], SearchEvents(boardString, trie.Words, row))
    {
      ghost var before := search.found;
      for col := 0 to Size
        invariant search.Valid() && search.path == []
        invariant search.found == AddAll(before, RowEvents(boardString, trie.Words, row, col))
      {
        search.SearchFrom(row, col);
        AddAllAppend(before, RowEvents(boardString, trie.Words, row, col), FromStart(boardString, trie.Words, row, col));
      }
      AddAllAppend([], SearchEvents(boardString, trie.Words, row), RowEvents(boardString, trie.Words, row, Size));
    }
    result := SortByRank(search.found, WordOf);
  }

  datatype Message = Init(words: seq<string>) | Search(board: string) | Other

  datatype Reply =
    | InitDone(success: bool)
    | SearchDone(words: seq<FoundWord>, error: Option<string>)
    | NoReply

  /** The worker's module state `WORDS` and `TRIE_ROOT`, and `self.onmessage`. */
  class Worker {
    var words: seq<string>
    var trieRoot: Trie?
    ghost var Repr: set<object>

    ghost predicate Valid()
      reads this, Repr
    {
      trieRoot != null ==>
        && trieRoot in Repr && trieRoot.Repr <= Repr
        && trieRoot.Valid() && trieRoot.Words == set w | w in words
    }

    constructor ()
      ensures Valid() && words == [] && trieRoot == null
    {
      words := [];
      trieRoot := null;
      Repr := {};
    }

    /** `init` replaces the word list and the trie and reports success;
        `search` before `init` answers no words and the error
        "Trie not initialized"; afterwards it answers the ranked board
        results; any other message is ignored. */
    method OnMessage(m: Message) returns (reply: Reply)
      requires Valid()
      modifies this
      ensures Valid()
      ensures m.Init? ==>
        && words == m.words && trieRoot != null && fresh(trieRoot)
        && trieRoot.Words == (set w | w in m.words) && reply == InitDone(true)
      ensures m.Search? && old(trieRoot) == null ==>
        reply == SearchDone([], Some("Trie not initialized"))
      ensures m.Search? && old(trieRoot) != null ==>
        trieRoot != null && reply == SearchDone(BoardResults(m.board, trieRoot.Words), None)
      ensures !m.Init? ==> words == old(words) && trieRoot == old(trieRoot) && Repr == old(Repr)
      ensures m.Other? ==> reply == NoReply
    {
      match m {
        case Init(ws) =>
          words := ws;
          var t := BuildTrie(ws);
          trieRoot := t;
          Repr := {t} + t.Repr;
          reply := InitDone(true);
        case Search(b) =>
          if trieRoot == null {
            reply := SearchDone([], Some("Trie not initialized"));
            return;
          }
          var results := FindWordsInBoard(b, trieRoot);
          reply := SearchDone(results, None);
        case Other =>
          reply := NoReply;
      }
    }
  }
}
