/** The grid game's page script: the readiness flag and the FIFO queue in
    front of the worker, the in-flight guard, the word-list load, the
    board reset and clear buttons, and the cyclic word navigation. The DOM
    is reduced to what it shows: the current word, the highlighted cells
    and the status line. Messages the page posts are appended to `posted`;
    replies arrive one at a time through `OnWorkerMessage`. */
module WordhuntPage {
  import opened Wrappers
  import opened Pages
  import opened WordList
  import opened WordGrid
  import W = WordhuntWorker

  const DefaultBoard: string := "OATRIHPSHTNRENEI"

  /** `clearBoard` writes `'A'` into all sixteen cells before reading the
      board back. */
  const ClearedBoard: string := "AAAAAAAAAAAAAAAA"

  const NoWordsFound: string := "No words found"
  const LoadingWordList: string := "Loading word list..."
  const NoWordsLoaded: string := "No words loaded. Check your word list."
  const LoadFailed: string := "Error loading word list"
  const BoardResetMessage: string := "Board reset to default"
  const BoardClearedMessage: string := "Board cleared"
  const WorkerErrorPrefix: string := "Worker error: "

  /** The search requests for a run of queued boards, in queue order. */
  function Searches(boards: seq<string>): seq<W.Message>
  {
    MapSeq(boards, (b: string) => W.Search(b))
  }

  /** The cells `displayWordAtIndex` highlights for a path: those the
      selector `[data-row=r][data-col=c]` finds on the board. */
  function PathCells(path: seq<Cell>): set<Cell>
  {
    set q | q in path && InBounds(q)
  }

  /** Showing a result lights exactly the cells of its path, one per letter
      of its word when the board text is full: every result path stays on
      the board and visits no cell twice. */
  lemma ShownPathCells(s: string, words: set<string>, e: FoundWord)
    requires e in BoardResults(s, words)
    ensures PathCells(e.path) == set q | q in e.path
    ensures |PathCells(e.path)| == |e.path|
    ensures |s| >= CellCount ==> |PathCells(e.path)| == |e.word|
  {
    BoardResultsSound(s, words);
    assert SimplePath(e.path);
    DistinctCard(e.path);
  }

  class Page {
    var words: seq<string>
    var board: string
    var found: seq<FoundWord>
    var currentWordIndex: int
    var isWordListLoaded: bool
    /** Set while `loadWordList` awaits the fetch; the model runs the load
        to completion in one step, so it is false between calls. */
    var isLoadingWordList: bool
    var isGameStarted: bool
    var isFindingWords: bool
    var workerCreated: bool
    var workerReady: bool
    var workerQueue: seq<string>
    var posted: seq<W.Message>
    var shownWord: string
    var selected: set<Cell>
    var status: Status

    /** The index is usable whenever there are words; once the worker is
        ready nothing waits in the queue; a search is in flight only after
        the worker was ready to take it. */
    ghost predicate Valid()
      reads this
    {
      && 0 <= currentWordIndex
      && (|found| > 0 ==> currentWordIndex < |found|)
      && (workerReady ==> workerQueue == [] && workerCreated)
      && (isFindingWords ==> workerReady)
      && (workerCreated ==> isWordListLoaded)
      && !isLoadingWordList
    }

    /** The word list on show and its display, apart from the status line. */
    ghost function View(): (seq<FoundWord>, int, string, set<Cell>)
      reads this
    {
      (found, currentWordIndex, shownWord, selected)
    }

    /** The state of the request queue in front of the worker. */
    ghost function Traffic(): (seq<string>, bool, bool)
      reads this
    {
      (workerQueue, workerReady, isFindingWords)
    }

    /** The loaded list, the board and the flags the worker traffic leaves alone. */
    ghost function Setup(): (seq<string>, string, bool, bool, bool, bool)
      reads this
    {
      (words, board, isWordListLoaded, isLoadingWordList, isGameStarted, workerCreated)
    }

    /** The page's module state as loaded. */
    constructor ()
      ensures Valid()
      ensures words == [] && board == DefaultBoard && found == [] && currentWordIndex == 0
      ensures !isWordListLoaded && !isGameStarted && !isFindingWords
      ensures !workerCreated && !workerReady && workerQueue == [] && posted == []
      ensures shownWord == "" && selected == {} && status == NoStatus
    {
      words := [];
      board := DefaultBoard;
      found := [];
      currentWordIndex := 0;
      isWordListLoaded := false;
      isLoadingWordList := false;
      isGameStarted := false;
      isFindingWords := false;
      workerCreated := false;
      workerReady := false;
      workerQueue := [];
      posted := [];
      shownWord := "";
      selected := {};
      status := NoStatus;
    }

    /** `sendBoardToWorker`: before the worker reports `init` the board only
        joins the queue; afterwards it is posted and the in-flight flag set. */
    method SendBoardToWorker(b: string)
      modifies this
      ensures !old(workerReady) ==>
        && workerQueue == old(workerQueue) + [b]
        && posted == old(posted) && isFindingWords == old(isFindingWords)
      ensures old(workerReady) ==>
        && workerQueue == old(workerQueue)
        && posted == old(posted) + [W.Search(b)] && isFindingWords
      ensures workerReady == old(workerReady) && workerCreated == old(workerCreated)
      ensures words == old(words) && board == old(board) && found == old(found)
      ensures currentWordIndex == old(currentWordIndex)
      ensures isWordListLoaded == old(isWordListLoaded) && isLoadingWordList == old(isLoadingWordList)
      ensures isGameStarted == old(isGameStarted)
      ensures shownWord == old(shownWord) && selected == old(selected) && status == old(status)
    {
      if !workerReady {
        workerQueue := workerQueue + [b];
        return;
      }
      isFindingWords := true;
      posted := posted + [W.Search(b)];
    }

    /** `findWordsInBoard`: nothing is sent before the word list is loaded or
        while a search is in flight; otherwise the current board goes to
        `sendBoardToWorker`. */
    method FindWordsInBoard()
      requires Valid()
      modifies this
      ensures Valid()
      ensures !old(isWordListLoaded) || old(isFindingWords) ==>
        && workerQueue == old(workerQueue) && posted == old(posted)
        && isFindingWords == old(isFindingWords)
      ensures old(isWordListLoaded) && !old(isFindingWords) && !old(workerReady) ==>
        && workerQueue == old(workerQueue) + [old(board)]
        && posted == old(posted) && !isFindingWords
      ensures old(isWordListLoaded) && !old(isFindingWords) && old(workerReady) ==>
        && workerQueue == old(workerQueue)
        && posted == old(posted) + [W.Search(old(board))] && isFindingWords
      ensures workerReady == old(workerReady) && workerCreated == old(workerCreated)
      ensures words == old(words) && board == old(board) && found == old(found)
      ensures currentWordIndex == old(currentWordIndex)
      ensures isWordListLoaded == old(isWordListLoaded) && isGameStarted == old(isGameStarted)
      ensures shownWord == old(shownWord) && selected == old(selected) && status == old(status)
    {
      if !isWordListLoaded || isFindingWords {
        return;
      }
      SendBoardToWorker(board);
    }

    /** `displayWordAtIndex`: the highlights are removed first; with no
        words the page says so; an index out of range changes nothing
        more; otherwise the word, its place in the list and its path are
        shown. */
    method DisplayWordAtIndex(index: int)
      modifies this
      ensures found == []  ==>
        && selected == {} && shownWord == NoWordsFound && status == Text(NoWordsFound)
      ensures found != [] && !(0 <= index < |found|) ==>
        && selected == {} && shownWord == old(shownWord) && status == old(status)
      ensures found != [] && 0 <= index < |found| ==>
        && selected == PathCells(found[index].path) && shownWord == found[index].word
        && status == ShowingWord(index + 1, |found|)
      ensures words == old(words) && board == old(board) && found == old(found)
      ensures currentWordIndex == old(currentWordIndex)
      ensures isWordListLoaded == old(isWordListLoaded) && isLoadingWordList == old(isLoadingWordList)
      ensures isGameStarted == old(isGameStarted) && isFindingWords == old(isFindingWords)
      ensures workerCreated == old(workerCreated) && workerReady == old(workerReady)
      ensures workerQueue == old(workerQueue) && posted == old(posted)
    {
      selected := {};
      if |found| == 0 {
        shownWord := NoWordsFound;
        status := Text(NoWordsFound);
        return;
      }
      if index < 0 || index >= |found| {
        return;
      }
      var fw := found[index];
      shownWord := fw.word;
      status := ShowingWord(index + 1, |found|);
      selected := PathCells(fw.path);
    }

    /** `initWorker`'s `onmessage`. On `init` the worker is ready and every
        queued board is taken off the front of the queue and posted, in
        order, none dropped. On `search` the in-flight flag is cleared; an
        error empties the list (and `displayWordAtIndex` then overwrites the
        error status with "No words found"), while a successful reply shows
        its first word and the count. */
    method OnWorkerMessage(reply: W.Reply)
      requires Valid() && workerCreated
      modifies this
      ensures Valid()
      ensures reply.InitDone? ==>
        && workerReady && workerQueue == []
        && posted == old(posted) + Searches(old(workerQueue))
        && isFindingWords == (old(isFindingWords) || old(workerQueue) != [])
        && found == old(found) && currentWordIndex == old(currentWordIndex)
        && shownWord == old(shownWord) && selected == old(selected) && status == old(status)
      ensures reply.SearchDone? ==>
        && !isFindingWords && workerReady == old(workerReady)
        && workerQueue == old(workerQueue) && posted == old(posted)
      ensures reply.SearchDone? && Truthy(reply.error) ==>
        && found == [] && currentWordIndex == old(currentWordIndex)
        && shownWord == NoWordsFound && selected == {} && status == Text(NoWordsFound)
      ensures reply.SearchDone? && !Truthy(reply.error) ==>
        && found == reply.words && currentWordIndex == 0
        && status == FoundWords(|reply.words|)
        && shownWord == (if reply.words == [] then NoWordsFound else reply.words[0].word)
        && selected == (if reply.words == [] then {} else PathCells(reply.words[0].path))
      ensures reply.NoReply? ==>
        && found == old(found) && currentWordIndex == old(currentWordIndex)
        && isFindingWords == old(isFindingWords) && workerReady == old(workerReady)
        && workerQueue == old(workerQueue) && posted == old(posted)
        && shownWord == old(shownWord) && selected == old(selected) && status == old(status)
      ensures words == old(words) && board == old(board) && workerCreated == old(workerCreated)
      ensures isWordListLoaded == old(isWordListLoaded) && isGameStarted == old(isGameStarted)
    {
      match reply {
        case InitDone(_) =>
          DrainQueue();
        case SearchDone(ws, error) =>
          isFindingWords := false;
          if Truthy(error) {
            status := Text(WorkerErrorPrefix + error.value);
            found := [];
            DisplayWordAtIndex(0);
            return;
          }
          found := ws;
          currentWordIndex := 0;
          DisplayWordAtIndex(currentWordIndex);
          status := FoundWords(|found|);
        case NoReply =>
      }
    }

    /** The `init` branch: `while (workerQueue.length > 0)
        sendBoardToWorker(workerQueue.shift())` with the worker ready. */
    method DrainQueue()
      requires Valid() && workerCreated
      modifies this
      ensures Valid()
      ensures workerReady && workerQueue == []
      ensures posted == old(posted) + Searches(old(workerQueue))
      ensures isFindingWords == (old(isFindingWords) || old(workerQueue) != [])
      ensures View() == old(View()) && status == old(status) && Setup() == old(Setup())
    {
      workerReady := true;
      ghost var queue := workerQueue;
      while |workerQueue| > 0
        invariant workerReady && View() == old(View()) && status == old(status) && Setup() == old(Setup())
        invariant |workerQueue| <= |queue| && workerQueue == queue[|queue| - |workerQueue|..]
        invariant posted == old(posted) + Searches(queue[..|queue| - |workerQueue|])
        invariant isFindingWords == (old(isFindingWords) || |workerQueue| < |queue|)
        decreases |workerQueue|
      {
        ghost var k := |queue| - |workerQueue|;
        var b := workerQueue[0];
        workerQueue := workerQueue[1..];
        assert queue[..k + 1] == queue[..k] + [b];
        SendBoardToWorker(b);
        assert Searches(queue[..k + 1]) == Searches(queue[..k]) + [W.Search(b)];
      }
      assert queue[..|queue|] == queue;
    }

    /** `showNextWord`: one place forward round the list; nothing happens
        with no words. */
    method ShowNextWord()
      requires Valid()
      modifies this
      ensures Valid()
      ensures found == [] ==>
        && currentWordIndex == old(currentWordIndex)
        && shownWord == old(shownWord) && selected == old(selected) && status == old(status)
      ensures found != [] ==>
        && currentWordIndex == NextIndex(old(currentWordIndex), |found|)
        && shownWord == found[currentWordIndex].word
        && selected == PathCells(found[currentWordIndex].path)
        && status == ShowingWord(currentWordIndex + 1, |found|)
      ensures found == old(found) && workerQueue == old(workerQueue) && posted == old(posted)
      ensures isFindingWords == old(isFindingWords) && workerReady == old(workerReady)
      ensures workerCreated == old(workerCreated) && words == old(words) && board == old(board)
      ensures isWordListLoaded == old(isWordListLoaded) && isGameStarted == old(isGameStarted)
    {
      if |found| == 0 {
        return;
      }
      currentWordIndex := NextIndex(currentWordIndex, |found|);
      DisplayWordAtIndex(currentWordIndex);
    }

    /** `showPrevWord`: one place back round the list; nothing happens with
        no words. */
    method ShowPrevWord()
      requires Valid()
      modifies this
      ensures Valid()
      ensures found == [] ==>
        && currentWordIndex == old(currentWordIndex)
        && shownWord == old(shownWord) && selected == old(selected) && status == old(status)
      ensures found != [] ==>
        && currentWordIndex == PrevIndex(old(currentWordIndex), |found|)
        && shownWord == found[currentWordIndex].word
        && selected == PathCells(found[currentWordIndex].path)
        && status == ShowingWord(currentWordIndex + 1, |found|)
      ensures found == old(found) && workerQueue == old(workerQueue) && posted == old(posted)
      ensures isFindingWords == old(isFindingWords) && workerReady == old(workerReady)
      ensures workerCreated == old(workerCreated) && words == old(words) && board == old(board)
      ensures isWordListLoaded == old(isWordListLoaded) && isGameStarted == old(isGameStarted)
    {
      if |found| == 0 {
        return;
      }
      currentWordIndex := PrevIndex(currentWordIndex, |found|);
      DisplayWordAtIndex(currentWordIndex);
    }

    /** `clearWordList`: no words, index 0, nothing shown or highlighted. */
    method ClearWordList()
      requires Valid()
      modifies this
      ensures Valid()
      ensures found == [] && currentWordIndex == 0 && shownWord == "" && selected == {}
      ensures status == old(status) && workerQueue == old(workerQueue) && posted == old(posted)
      ensures isFindingWords == old(isFindingWords) && workerReady == old(workerReady)
      ensures workerCreated == old(workerCreated) && words == old(words) && board == old(board)
      ensures isWordListLoaded == old(isWordListLoaded) && isGameStarted == old(isGameStarted)
    {
      found := [];
      currentWordIndex := 0;
      shownWord := "";
      selected := {};
    }

    /** `resetBoard`: the default board, an empty word list, and a search
        request for the board (subject to the guard). */
    method ResetBoard()
      requires Valid()
      modifies this
      ensures Valid()
      ensures board == DefaultBoard && found == [] && currentWordIndex == 0
      ensures shownWord == "" && selected == {} && status == Text(BoardResetMessage)
      ensures !old(isWordListLoaded) || old(isFindingWords) ==>
        workerQueue == old(workerQueue) && posted == old(posted)
      ensures old(isWordListLoaded) && !old(isFindingWords) && !old(workerReady) ==>
        workerQueue == old(workerQueue) + [DefaultBoard] && posted == old(posted)
      ensures old(isWordListLoaded) && !old(isFindingWords) && old(workerReady) ==>
        workerQueue == old(workerQueue) && posted == old(posted) + [W.Search(DefaultBoard)]
      ensures workerReady == old(workerReady) && workerCreated == old(workerCreated)
      ensures words == old(words)
      ensures isWordListLoaded == old(isWordListLoaded) && isGameStarted == old(isGameStarted)
    {
      board := DefaultBoard;
      ClearWordList();
      status := Text(BoardResetMessage);
      FindWordsInBoard();
    }

    /** `clearBoard`: every cell `'A'`, an empty word list, and a search
        request for that board (subject to the guard). */
    method ClearBoard()
      requires Valid()
      modifies this
      ensures Valid()
      ensures board == ClearedBoard && found == [] && currentWordIndex == 0
      ensures shownWord == "" && selected == {} && status == Text(BoardClearedMessage)
      ensures !old(isWordListLoaded) || old(isFindingWords) ==>
        workerQueue == old(workerQueue) && posted == old(posted)
      ensures old(isWordListLoaded) && !old(isFindingWords) && !old(workerReady) ==>
        workerQueue == old(workerQueue) + [ClearedBoard] && posted == old(posted)
      ensures old(isWordListLoaded) && !old(isFindingWords) && old(workerReady) ==>
        workerQueue == old(workerQueue) && posted == old(posted) + [W.Search(ClearedBoard)]
      ensures workerReady == old(workerReady) && workerCreated == old(workerCreated)
      ensures words == old(words)
      ensures isWordListLoaded == old(isWordListLoaded) && isGameStarted == old(isGameStarted)
    {
      board := ClearedBoard;
      ClearWordList();
      status := Text(BoardClearedMessage);
      FindWordsInBoard();
    }

    /** `loadWordList`, with the fetched text as input (`None` when the
        request fails or the response is not ok). It runs once; a parsed
        list is kept, the worker created and sent `init` with it; a failure
        leaves the list empty and posts nothing. Either way the list counts
        as loaded afterwards. */
    method LoadWordList(fetched: Option<string>)
      requires Valid()
      modifies this
      ensures Valid()
      ensures old(isWordListLoaded) ==>
        && words == old(words) && posted == old(posted) && status == old(status)
        && workerCreated == old(workerCreated)
      ensures !old(isWordListLoaded) && fetched.Some? ==>
        && words == ParseWordList(fetched.value) && workerCreated
        && posted == old(posted) + [W.Init(words)]
        && status == Text(if words == [] then NoWordsLoaded else LoadingWordList)
      ensures !old(isWordListLoaded) && fetched.None? ==>
        && words == [] && posted == old(posted) && workerCreated == old(workerCreated)
        && status == Text(LoadFailed)
      ensures isWordListLoaded
      ensures board == old(board) && isGameStarted == old(isGameStarted)
      ensures View() == old(View()) && Traffic() == old(Traffic())
    {
      if isWordListLoaded || isLoadingWordList {
        return;
      }
      isLoadingWordList := true;
      status := Text(LoadingWordList);
      match fetched {
        case Some(text) =>
          var filtered := ParseWordList(text);
          words := filtered;
          InitWorker();
          posted := posted + [W.Init(filtered)];
          if |filtered| == 0 {
            status := Text(NoWordsLoaded);
          }
        case None =>
          status := Text(LoadFailed);
          words := [];
      }
      isWordListLoaded := true;
      isLoadingWordList := false;
    }

    /** `initWorker`: the worker is created once. */
    method InitWorker()
      modifies this
      ensures workerCreated
      ensures words == old(words) && board == old(board) && posted == old(posted) && status == old(status)
      ensures isWordListLoaded == old(isWordListLoaded) && isLoadingWordList == old(isLoadingWordList)
      ensures isGameStarted == old(isGameStarted)
      ensures View() == old(View()) && Traffic() == old(Traffic())
    {
      if workerCreated {
        return;
      }
      workerCreated := true;
    }

    /** `startGame`: the first call loads the word list and, when it gave
        words, resets the board, which queues the default board for the
        worker that is not ready yet. Later calls do nothing. */
    method StartGame(fetched: Option<string>)
      requires Valid()
      modifies this
      ensures Valid()
      ensures isGameStarted
      ensures old(isGameStarted) ==>
        && words == old(words) && board == old(board) && posted == old(posted)
        && workerQueue == old(workerQueue) && found == old(found) && status == old(status)
      ensures !old(isGameStarted) && !old(isWordListLoaded) && fetched.Some? ==>
        && words == ParseWordList(fetched.value)
        && posted == old(posted) + [W.Init(words)]
      ensures !old(isGameStarted) && !old(isWordListLoaded) && fetched.None? ==>
        && words == [] && posted == old(posted)
        && workerQueue == old(workerQueue) && board == old(board)
      ensures !old(isGameStarted) && !old(isWordListLoaded) && words != [] ==>
        && board == DefaultBoard && found == [] && status == Text(BoardResetMessage)
        && workerQueue == old(workerQueue) + [DefaultBoard]
      ensures !old(isGameStarted) && !old(isWordListLoaded) && words == [] ==>
        && board == old(board) && workerQueue == old(workerQueue)
      ensures !old(isGameStarted) && old(isWordListLoaded) ==>
        && words == old(words)
        && (words != [] ==> board == DefaultBoard && found == [] && status == Text(BoardResetMessage))
        && (words == [] ==> board == old(board) && posted == old(posted) && workerQueue == old(workerQueue))
    {
      if isGameStarted {
        return;
      }
      isGameStarted := true;
      LoadWordList(fetched);
      if |words| > 0 {
        ResetBoard();
      }
    }
  }
}
