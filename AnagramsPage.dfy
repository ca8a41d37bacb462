/** The letter game's page script: the readiness flag and the FIFO queue in
    front of the worker (with no in-flight guard), the six letter cells,
    the word-list load and the cyclic word navigation. The DOM is reduced
    to what it shows: the letter cells, the current word, the word count
    and the status line. Messages the page posts are appended to `posted`;
    replies arrive one at a time through `OnWorkerMessage`. */
module AnagramsPage {
  import opened Wrappers
  import opened Pages
  import opened WordList
  import W = AnagramsWorker

  const CellCount := 6

  const DefaultLetters: seq<string> := ["P", "A", "I", "N", "T", "S"]

  const NoWordsFound: string := "No words found"
  const LoadingWordList: string := "Loading word list..."
  const NoWordsLoaded: string := "No words loaded. Check your word list."
  const LoadFailed: string := "Error loading word list"
  const GameReady: string := "Game ready! Click letters to edit them."
  const WorkerErrorPrefix: string := "Worker error: "

  /** The search requests for a run of queued letter lists, in queue order. */
  function Searches(queue: seq<seq<string>>): seq<W.Message>
  {
    MapSeq(queue, (letters: seq<string>) => W.Search(letters))
  }

  /** `x || 'A'` on a cell's text: the empty string is falsy. */
  function OrA(text: string): (r: string)
    ensures r != ""
    ensures text != "" ==> r == text
    ensures text == "" ==> r == "A"
  {
    if text == "" then "A" else text
  }

  /** `CURRENT_LETTERS[i] || 'A'`: a missing or empty letter shows as `'A'`. */
  function CellText(letters: seq<string>, i: nat): (r: string)
    ensures r != ""
    ensures i < |letters| && letters[i] != "" ==> r == letters[i]
    ensures i < |letters| && letters[i] == "" ==> r == "A"
    ensures i >= |letters| ==> r == "A"
  {
    if i < |letters| then OrA(letters[i]) else "A"
  }

  class Page {
    var words: seq<string>
    var currentLetters: seq<string>
    var cells: seq<string>
    var foundWords: seq<string>
    var currentWordIndex: int
    var isWordListLoaded: bool
    /** Set while `loadWordList` awaits the fetch; the model runs the load
        to completion in one step, so it is false between calls. */
    var isLoadingWordList: bool
    var isGameStarted: bool
    var workerCreated: bool
    var workerReady: bool
    var workerQueue: seq<seq<string>>
    var posted: seq<W.Message>
    var shownWord: string
    var wordCount: nat
    var status: Status

    /** The grid has six non-empty cells; the index is usable whenever
        there are words; once the worker is ready nothing waits in the
        queue. */
    ghost predicate Valid()
      reads this
    {
      && |cells| == CellCount
      && (forall i :: 0 <= i < |cells| ==> cells[i] != "")
      && 0 <= currentWordIndex
      && (|foundWords| > 0 ==> currentWordIndex < |foundWords|)
      && (workerReady ==> workerQueue == [] && workerCreated)
      && (workerCreated ==> isWordListLoaded)
      && !isLoadingWordList
    }

    /** The word list on show and its display, apart from the status line. */
    ghost function View(): (seq<string>, int, string, nat)
      reads this
    {
      (foundWords, currentWordIndex, shownWord, wordCount)
    }

    /** The loaded list, the letters and the flags the worker traffic leaves alone. */
    ghost function Setup(): (seq<string>, seq<string>, seq<string>, bool, bool, bool, bool)
      reads this
    {
      (words, currentLetters, cells, isWordListLoaded, isLoadingWordList, isGameStarted, workerCreated)
    }

    /** The page as initialised: `createLettersGrid` has run with no current
        letters, so every cell shows `'A'`. */
    constructor ()
      ensures Valid()
      ensures words == [] && currentLetters == [] && cells == ["A", "A", "A", "A", "A", "A"]
      ensures foundWords == [] && currentWordIndex == 0
      ensures !isWordListLoaded && !isGameStarted
      ensures !workerCreated && !workerReady && workerQueue == [] && posted == []
      ensures shownWord == "" && wordCount == 0 && status == NoStatus
    {
      words := [];
      currentLetters := [];
      cells := ["A", "A", "A", "A", "A", "A"];
      foundWords := [];
      currentWordIndex := 0;
      isWordListLoaded := false;
      isLoadingWordList := false;
      isGameStarted := false;
      workerCreated := false;
      workerReady := false;
      workerQueue := [];
      posted := [];
      shownWord := "";
      wordCount := 0;
      status := NoStatus;
    }

    /** `sendLettersToWorker`: before the worker reports `init` the letters
        only join the queue; afterwards they are posted. */
    method SendLettersToWorker(letters: seq<string>)
      modifies this
      ensures !old(workerReady) ==> workerQueue == old(workerQueue) + [letters] && posted == old(posted)
      ensures old(workerReady) ==> workerQueue == old(workerQueue) && posted == old(posted) + [W.Search(letters)]
      ensures workerReady == old(workerReady)
      ensures View() == old(View()) && status == old(status) && Setup() == old(Setup())
    {
      if !workerReady {
        workerQueue := workerQueue + [letters];
        return;
      }
      posted := posted + [W.Search(letters)];
    }

    /** `findWordsFromLetters`: once the word list is loaded every call sends
        the current letters on; there is no in-flight guard. */
    method FindWordsFromLetters()
      requires Valid()
      modifies this
      ensures Valid()
      ensures !old(isWordListLoaded) ==> workerQueue == old(workerQueue) && posted == old(posted)
      ensures old(isWordListLoaded) && !old(workerReady) ==>
        workerQueue == old(workerQueue) + [old(currentLetters)] && posted == old(posted)
      ensures old(isWordListLoaded) && old(workerReady) ==>
        workerQueue == old(workerQueue) && posted == old(posted) + [W.Search(old(currentLetters))]
      ensures workerReady == old(workerReady)
      ensures View() == old(View()) && status == old(status) && Setup() == old(Setup())
    {
      if !isWordListLoaded {
        return;
      }
      SendLettersToWorker(currentLetters);
    }

    /** `createLettersGrid`: six cells, cell `i` showing the `i`-th current
        letter, or `'A'` where there is none. */
    method CreateLettersGrid()
      requires Valid()
      modifies this
      ensures Valid()
      ensures |cells| == CellCount
      ensures forall i :: 0 <= i < CellCount ==> cells[i] == CellText(currentLetters, i)
      ensures words == old(words) && currentLetters == old(currentLetters)
      ensures isWordListLoaded == old(isWordListLoaded) && isGameStarted == old(isGameStarted)
      ensures workerCreated == old(workerCreated)
      ensures View() == old(View()) && status == old(status) && Traffic() == old(Traffic())
    {
      var grid: seq<string> := [];
      for i := 0 to CellCount
        invariant |grid| == i
        invariant forall k :: 0 <= k < i ==> grid[k] == CellText(currentLetters, k)
      {
        grid := grid + [CellText(currentLetters, i)];
      }
      cells := grid;
    }

    /** `updateLettersString`: the current letters are read back from the
        cells, in order, an empty cell counting as `'A'`; since no cell is
        empty, they are exactly the cells' letters. */
    method UpdateLettersString()
      requires Valid()
      modifies this
      ensures Valid()
      ensures currentLetters == cells
      ensures words == old(words) && cells == old(cells)
      ensures isWordListLoaded == old(isWordListLoaded) && isGameStarted == old(isGameStarted)
      ensures workerCreated == old(workerCreated)
      ensures View() == old(View()) && status == old(status) && Traffic() == old(Traffic())
    {
      var letters: seq<string> := [];
      for i := 0 to |cells|
        invariant |letters| == i
        invariant forall k :: 0 <= k < i ==> letters[k] == OrA(cells[k])
      {
        letters := letters + [OrA(cells[i])];
      }
      currentLetters := letters;
    }

    /** The state of the request queue in front of the worker. */
    ghost function Traffic(): (seq<seq<string>>, bool, seq<W.Message>)
      reads this
    {
      (workerQueue, workerReady, posted)
    }

    /** `displayWordAtIndex`: with no words the page says so; an index out of
        range changes nothing; otherwise the word and its place in the list
        are shown. */
    method DisplayWordAtIndex(index: int)
      modifies this
      ensures foundWords == [] ==> shownWord == NoWordsFound && status == Text(NoWordsFound)
      ensures foundWords != [] && !(0 <= index < |foundWords|) ==>
        shownWord == old(shownWord) && status == old(status)
      ensures foundWords != [] && 0 <= index < |foundWords| ==>
        shownWord == foundWords[index] && status == ShowingWord(index + 1, |foundWords|)
      ensures foundWords == old(foundWords) && currentWordIndex == old(currentWordIndex)
      ensures wordCount == old(wordCount)
      ensures Setup() == old(Setup()) && Traffic() == old(Traffic())
    {
      if |foundWords| == 0 {
        shownWord := NoWordsFound;
        status := Text(NoWordsFound);
        return;
      }
      if index < 0 || index >= |foundWords| {
        return;
      }
      var word := foundWords[index];
      shownWord := word;
      status := ShowingWord(index + 1, |foundWords|);
    }

    /** `initWorker`'s `onmessage`. On `init` the worker is ready and every
        queued letter list is taken off the front of the queue and posted,
        in order, none dropped. On `search` an error empties the list (and
        `displayWordAtIndex` then overwrites the error status with "No words
        found"), while a successful reply shows its first word and the
        count. */
    method OnWorkerMessage(reply: W.Reply)
      requires Valid() && workerCreated
      modifies this
      ensures Valid()
      ensures reply.InitDone? ==>
        && workerReady && workerQueue == []
        && posted == old(posted) + Searches(old(workerQueue))
        && View() == old(View()) && status == old(status)
      ensures reply.SearchDone? ==> Traffic() == old(Traffic())
      ensures reply.SearchDone? && Truthy(reply.error) ==>
        && foundWords == [] && currentWordIndex == old(currentWordIndex)
        && shownWord == NoWordsFound && wordCount == old(wordCount) && status == Text(NoWordsFound)
      ensures reply.SearchDone? && !Truthy(reply.error) ==>
        && foundWords == reply.words && currentWordIndex == 0
        && shownWord == (if reply.words == [] then NoWordsFound else reply.words[0])
        && wordCount == |reply.words| && status == FoundWords(|reply.words|)
      ensures reply.NoReply? ==> Traffic() == old(Traffic()) && View() == old(View()) && status == old(status)
      ensures Setup() == old(Setup())
    {
      match reply {
        case InitDone(_) =>
          DrainQueue();
        case SearchDone(ws, error) =>
          if Truthy(error) {
            status := Text(WorkerErrorPrefix + error.value);
            foundWords := [];
            DisplayWordAtIndex(0);
            return;
          }
          foundWords := ws;
          currentWordIndex := 0;
          DisplayWordAtIndex(currentWordIndex);
          wordCount := |foundWords|;
          status := FoundWords(|foundWords|);
        case NoReply =>
      }
    }

    /** The `init` branch: `while (workerQueue.length > 0)
        sendLettersToWorker(workerQueue.shift())` with the worker ready. */
    method DrainQueue()
      requires Valid() && workerCreated
      modifies this
      ensures Valid()
      ensures workerReady && workerQueue == []
      ensures posted == old(posted) + Searches(old(workerQueue))
      ensures View() == old(View()) && status == old(status) && Setup() == old(Setup())
    {
      workerReady := true;
      ghost var queue := workerQueue;
      while |workerQueue| > 0
        invariant workerReady && View() == old(View()) && status == old(status) && Setup() == old(Setup())
        invariant |workerQueue| <= |queue| && workerQueue == queue[|queue| - |workerQueue|..]
        invariant posted == old(posted) + Searches(queue[..|queue| - |workerQueue|])
        decreases |workerQueue|
      {
        ghost var k := |queue| - |workerQueue|;
        var letters := workerQueue[0];
        workerQueue := workerQueue[1..];
        assert queue[..k + 1] == queue[..k] + [letters];
        SendLettersToWorker(letters);
        assert Searches(queue[..k + 1]) == Searches(queue[..k]) + [W.Search(letters)];
      }
      assert queue[..|queue|] == queue;
    }

    /** `showNextWord`: one place forward round the list; nothing happens
        with no words. */
    method ShowNextWord()
      requires Valid()
      modifies this
      ensures Valid()
      ensures foundWords == [] ==> View() == old(View()) && status == old(status)
      ensures foundWords != [] ==>
        && currentWordIndex == NextIndex(old(currentWordIndex), |foundWords|)
        && shownWord == foundWords[currentWordIndex]
        && status == ShowingWord(currentWordIndex + 1, |foundWords|)
      ensures foundWords == old(foundWords) && wordCount == old(wordCount)
      ensures Setup() == old(Setup()) && Traffic() == old(Traffic())
    {
      if |foundWords| == 0 {
        return;
      }
      currentWordIndex := NextIndex(currentWordIndex, |foundWords|);
      DisplayWordAtIndex(currentWordIndex);
    }

    /** `showPrevWord`: one place back round the list; nothing happens with
        no words. */
    method ShowPrevWord()
      requires Valid()
      modifies this
      ensures Valid()
      ensures foundWords == [] ==> View() == old(View()) && status == old(status)
      ensures foundWords != [] ==>
        && currentWordIndex == PrevIndex(old(currentWordIndex), |foundWords|)
        && shownWord == foundWords[currentWordIndex]
        && status == ShowingWord(currentWordIndex + 1, |foundWords|)
      ensures foundWords == old(foundWords) && wordCount == old(wordCount)
      ensures Setup() == old(Setup()) && Traffic() == old(Traffic())
    {
      if |foundWords| == 0 {
        return;
      }
      currentWordIndex := PrevIndex(currentWordIndex, |foundWords|);
      DisplayWordAtIndex(currentWordIndex);
    }

    /** `clearWordList`: no words, index 0, a zero count, nothing shown. */
    method ClearWordList()
      requires Valid()
      modifies this
      ensures Valid()
      ensures foundWords == [] && currentWordIndex == 0 && shownWord == "" && wordCount == 0
      ensures status == old(status) && Setup() == old(Setup()) && Traffic() == old(Traffic())
    {
      foundWords := [];
      currentWordIndex := 0;
      wordCount := |foundWords|;
      shownWord := "";
    }

    /** `loadWordList`, with the fetched text as input (`None` when the
        request fails or the response is not ok). It runs once; a parsed
        list is kept, the worker created and sent `init` with it; a failure
        leaves the list empty and posts nothing. Either way the list counts
        as loaded afterwards. */
    method LoadWordList(fetched: Option<string>)
      requires Valid()
      modifies this
      ensures Valid()
      ensures old(isWordListLoaded) ==>
        && words == old(words) && posted == old(posted) && status == old(status)
        && workerCreated == old(workerCreated)
      ensures !old(isWordListLoaded) && fetched.Some? ==>
        && words == ParseWordList(fetched.value) && workerCreated
        && posted == old(posted) + [W.Init(words)]
        && status == Text(if words == [] then NoWordsLoaded else LoadingWordList)
      ensures !old(isWordListLoaded) && fetched.None? ==>
        && words == [] && posted == old(posted) && workerCreated == old(workerCreated)
        && status == Text(LoadFailed)
      ensures isWordListLoaded
      ensures currentLetters == old(currentLetters) && cells == old(cells)
      ensures isGameStarted == old(isGameStarted)
      ensures workerQueue == old(workerQueue) && workerReady == old(workerReady)
      ensures View() == old(View())
    {
      if isWordListLoaded || isLoadingWordList {
        return;
      }
      isLoadingWordList := true;
      status := Text(LoadingWordList);
      match fetched {
        case Some(text) =>
          var filtered := ParseWordList(text);
          words := filtered;
          InitWorker();
          posted := posted + [W.Init(filtered)];
          if |filtered| == 0 {
            status := Text(NoWordsLoaded);
          }
        case None =>
          status := Text(LoadFailed);
          words := [];
      }
      isWordListLoaded := true;
      isLoadingWordList := false;
    }

    /** `initWorker`: the worker is created once. */
    method InitWorker()
      modifies this
      ensures workerCreated
      ensures words == old(words) && currentLetters == old(currentLetters) && cells == old(cells)
      ensures isWordListLoaded == old(isWordListLoaded) && isLoadingWordList == old(isLoadingWordList)
      ensures isGameStarted == old(isGameStarted) && status == old(status)
      ensures View() == old(View()) && Traffic() == old(Traffic())
    {
      if workerCreated {
        return;
      }
      workerCreated := true;
    }

    /** `startGame`: the first call loads the word list, falls back to the
        default letters only when there are no current letters, rebuilds the
        grid and asks for the words of the letters, which queues them for
        the worker that is not ready yet; it does so even when the load
        failed. Later calls do nothing. */
    method StartGame(fetched: Option<string>)
      requires Valid()
      modifies this
      ensures Valid()
      ensures isGameStarted
      ensures old(isGameStarted) ==>
        && words == old(words) && currentLetters == old(currentLetters) && cells == old(cells)
        && Traffic() == old(Traffic()) && status == old(status)
      ensures !old(isGameStarted) ==>
        && currentLetters == (if old(currentLetters) == [] then DefaultLetters else old(currentLetters))
        && (forall i :: 0 <= i < CellCount ==> cells[i] == CellText(currentLetters, i))
        && status == Text(GameReady)
      ensures !old(isGameStarted) && !old(isWordListLoaded) ==>
        && words == (if fetched.Some? then ParseWordList(fetched.value) else [])
        && posted == old(posted) + (if fetched.Some? then [W.Init(words)] else [])
        && workerQueue == old(workerQueue) + [currentLetters]
      ensures !old(isGameStarted) && old(isWordListLoaded) ==>
        && words == old(words)
        && (old(workerReady) ==> workerQueue == old(workerQueue) && posted == old(posted) + [W.Search(currentLetters)])
        && (!old(workerReady) ==> workerQueue == old(workerQueue) + [currentLetters] && posted == old(posted))
    {
      if isGameStarted {
        return;
      }
      isGameStarted := true;
      LoadWordList(fetched);
      if |currentLetters| == 0 {
        currentLetters := DefaultLetters;
      }
      CreateLettersGrid();
      FindWordsFromLetters();
      status := Text(GameReady);
    }
  }

  /** With the default letters the grid shows P, A, I, N, T, S. */
  lemma DefaultGrid()
    ensures forall i :: 0 <= i < CellCount ==> CellText(DefaultLetters, i) == DefaultLetters[i]
  {
  }
}
