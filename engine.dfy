/** The solving engine: one object holding the current board, the
    suggestion lists and counts of the last propagation pass, and the
    status text. Its methods change that state in place, as the engine's
    methods do. Each postcondition other than those of Search and Solve
    gives the new state in terms of the functions of Propagate and
    Validate, or of the old state; Search promises a settled state, and
    Solve the board and status on every exit. */
module Engine {
  import opened Grid
  import opened Validate
  import opened Propagate

  /** The status texts the engine sets: '' initially, "Invalid Board",
      "Completed Board", "Incomplete Board", "Repeated Values" and
      "No Solution Found, Try The Advanced Options". */
  datatype Status = Unset | InvalidBoard | CompletedBoard | IncompleteBoard | RepeatedValues | NoSolutionFound

  /** One decision-tree entry: the cell branched on and its untried digits. */
  datatype Branch = Branch(cell: nat, untried: seq<char>)

  /** How solve ends: it returns, or the backjump scan runs off the end of
      the decision tree (an IndexError, raised out of solve). */
  datatype Exit = Returned | RaisedIndexError

  datatype Option<T> = None | Some(value: T)

  /** min(counts) followed by counts.index(...): the first position of the
      smallest count. */
  function FirstMinIndex(counts: seq<nat>): (k: nat)
    requires |counts| > 0
    ensures k < |counts|
    ensures forall j :: 0 <= j < |counts| ==> counts[k] <= counts[j]
    ensures forall j :: 0 <= j < k ==> counts[k] < counts[j]
  {
    if |counts| == 1 then 0
    else
      var k := FirstMinIndex(counts[..|counts| - 1]);
      if counts[|counts| - 1] < counts[k] then |counts| - 1 else k
  }

  /** u is what is left of full after popping some entries off its front. */
  predicate IsSuffix(u: seq<char>, full: seq<char>) {
    |u| <= |full| && u == full[|full| - |u|..]
  }

  /** A decision-tree level as solve keeps it: its snapshot is a board that
      a pass leaves unchanged, its cell is that board's first smallest
      count, and its untried digits are what is left of that cell's
      suggestion list after popping tried ones off the front. */
  ghost predicate Level(step: seq<char>, branch: Branch) {
    IsBoard(step) && NextBoard(step, false) == step &&
    branch.cell == FirstMinIndex(NextCounts(step)) &&
    IsSuffix(branch.untried, NextSuggestions(step)[branch.cell])
  }

  /** The snapshot stack and the decision tree, in lockstep. */
  ghost predicate Levels(steps: seq<seq<char>>, tree: seq<Branch>) {
    |steps| == |tree| && forall k {:trigger Level(steps[k], tree[k])} :: 0 <= k < |steps| ==> Level(steps[k], tree[k])
  }

  /** The top level: a settled snapshot and a cell on the board. */
  lemma LevelsTop(steps: seq<seq<char>>, tree: seq<Branch>)
    requires Levels(steps, tree) && |steps| > 0
    ensures Level(steps[|steps| - 1], tree[|tree| - 1])
    ensures IsBoard(steps[|steps| - 1]) && NextBoard(steps[|steps| - 1], false) == steps[|steps| - 1]
    ensures tree[|tree| - 1].cell < Cells
  {
  }

  lemma LevelsPrefix(steps: seq<seq<char>>, tree: seq<Branch>, n: nat)
    requires Levels(steps, tree) && n <= |steps|
    ensures Levels(steps[..n], tree[..n])
  {
  }

  lemma LevelsPush(steps: seq<seq<char>>, tree: seq<Branch>, step: seq<char>, branch: Branch)
    requires Levels(steps, tree) && Level(step, branch)
    ensures Levels(steps + [step], tree + [branch])
  {
  }

  /** Popping the next digit off the top level's untried list keeps it a
      level. */
  lemma LevelsPop(steps: seq<seq<char>>, tree: seq<Branch>)
    requires Levels(steps, tree) && |tree| > 0 && tree[|tree| - 1].untried != []
    ensures var top := tree[|tree| - 1];
            Levels(steps, tree[|tree| - 1 := Branch(top.cell, top.untried[1..])])
  {
    var n := |tree| - 1;
    var top := tree[n];
    var popped := tree[n := Branch(top.cell, top.untried[1..])];
    LevelPop(steps[n], top);
    forall k | 0 <= k < |steps| ensures Level(steps[k], popped[k]) {
      if k < n {
        assert popped[k] == tree[k];
      }
    }
  }

  /** The same for one level. */
  lemma LevelPop(step: seq<char>, branch: Branch)
    requires Level(step, branch) && branch.untried != []
    ensures Level(step, Branch(branch.cell, branch.untried[1..]))
  {
    SuffixTail(branch.untried, NextSuggestions(step)[branch.cell]);
  }

  /** Dropping the front of a suffix leaves a suffix. */
  lemma SuffixTail(u: seq<char>, full: seq<char>)
    requires IsSuffix(u, full) && u != []
    ensures IsSuffix(u[1..], full)
  {
    assert u[1..] == full[|full| - |u[1..]|..];
  }

  /** update's treatment of a typed character: a digit 1..9 is kept,
      anything else becomes '0'. */
  function EntryValue(ch: char): char {
    if '1' <= ch <= '9' then ch else '0'
  }

  /** The board a search round continues from: the top snapshot when the
      current board has a cell with no candidate, the current board
      otherwise. */
  function Resumed(board: seq<char>, counts: seq<nat>, steps: seq<seq<char>>): seq<char>
    requires |steps| > 0
  {
    if Dead in counts then steps[|steps| - 1] else board
  }

  /** The snapshot stack once board b is on top of it: pushed when it is
      not already the top snapshot. */
  function Snapshot(steps: seq<seq<char>>, b: seq<char>): seq<seq<char>>
    requires |steps| > 0
  {
    if steps[|steps| - 1] != b then steps + [b] else steps
  }

  /** The decision tree once a newly pushed board gets its branch: the first
      cell of smallest count, with that cell's suggestions untried. */
  function Branched(steps: seq<seq<char>>, tree: seq<Branch>, b: seq<char>,
                    counts: seq<nat>, suggestions: seq<seq<char>>): seq<Branch>
    requires |steps| > 0 && |counts| > 0 && |suggestions| == |counts|
  {
    if steps[|steps| - 1] != b then
      tree + [Branch(FirstMinIndex(counts), suggestions[FirstMinIndex(counts)])]
    else tree
  }

  /** The backjump scan: the shallowest level that still has untried
      digits, or None where the source's scan raises IndexError. */
  method FirstOpenLevel(tree: seq<Branch>) returns (r: Option<nat>)
    ensures r.Some? ==> r.value < |tree| && tree[r.value].untried != []
    ensures r.Some? ==> forall k :: 0 <= k < r.value ==> tree[k].untried == []
    ensures r.None? <==> forall k :: 0 <= k < |tree| ==> tree[k].untried == []
  {
    var index := 0;
    while index < |tree| && |tree[index].untried| == 0
      invariant 0 <= index <= |tree|
      invariant forall k :: 0 <= k < index ==> tree[k].untried == []
    {
      index := index + 1;
    }
    if index == |tree| {
      return None;
    }
    return Some(index);
  }

  class SudokuEngine {
    /** current_board: 81 characters, '0' empty, '_' several candidates. */
    var board: seq<char>
    /** suggestions: the candidate list of every cell, from the last pass. */
    var suggestions: seq<seq<char>>
    /** suggestion_lengths: the count of every cell, from the last pass. */
    var counts: seq<nat>
    /** status_var. */
    var status: Status

    ghost predicate Valid()
      reads this
    {
      IsBoard(board)
    }

    /** The board is propagated and the suggestions and counts are those of
        a pass over it: the state get_furthest leaves behind. */
    ghost predicate Settled()
      reads this
    {
      Valid() && NextBoard(board, false) == board &&
      counts == NextCounts(board) && suggestions == NextSuggestions(board)
    }

    constructor ()
      ensures Valid() && forall c :: 0 <= c < Cells ==> board[c] == '0'
      ensures suggestions == [] && counts == [] && status == Unset
    {
      board := seq(Cells, _ => '0');
      suggestions := [];
      counts := [];
      status := Unset;
    }

    /** iterate: one pass over the cells in index order. Rows, columns and
        blocks are taken from the board as it was before the pass, so a
        digit forced in this pass is not seen by later cells of the same
        pass. */
    method Iterate(markers: bool)
      requires Valid()
      modifies this
      ensures Valid() && status == old(status)
      ensures board == NextBoard(old(board), markers)
      ensures counts == NextCounts(old(board))
      ensures suggestions == NextSuggestions(old(board))
    {
      var groups := BoardParser(board);
      var marker := if markers then '_' else '0';
      counts := [];
      var iterated: seq<char> := [];
      // The source writes each list into its suggestions dictionary as it
      // goes; nothing reads the dictionary before the pass ends.
      var lists: seq<seq<char>> := [];
      for index := 0 to Cells
        invariant board == old(board) && status == old(status)
        invariant iterated == NextBoard(board, markers)[..index]
        invariant counts == NextCounts(board)[..index]
        invariant lists == NextSuggestions(board)[..index]
      {
        PassPrefix(board, markers, index);
        var digit := board[index];
        var remaining: seq<char>;
        var length: nat;
        if digit == '0' || digit == '_' {
          var column := index % 9;
          var row := index / 9;
          var block: nat;
          if row <= 2 {
            block := column / 3;
          } else if row <= 5 {
            block := 3 + column / 3;
          } else {
            block := 6 + column / 3;
          }
          TakenGivesCandidates(board, index, row, column, block);
          var taken := Taken(groups, row, column, block);
          remaining := Remaining(taken);
          if |remaining| == 0 {
            iterated := iterated + ['0'];
            length := Dead;
          } else if |remaining| == 1 {
            iterated := iterated + [remaining[0]];
            length := Fixed;
          } else {
            iterated := iterated + [marker];
            length := |remaining|;
          }
        } else {
          remaining := ['0'];
          iterated := iterated + [digit];
          length := Fixed;
        }
        lists := lists + [remaining];
        counts := counts + [length];
      }
      assert iterated == NextBoard(board, markers)[..Cells];
      suggestions := lists;
      board := iterated;
    }

    /** get_furthest: passes without markers until one changes nothing. */
    method GetFurthest()
      requires Valid()
      modifies this
      ensures Settled() && status == old(status)
      ensures board == Furthest(old(board))
    {
      var current := board;
      Iterate(false);
      while current != board
        invariant Valid() && IsBoard(current) && status == old(status)
        invariant board == NextBoard(current, false)
        invariant counts == NextCounts(current) && suggestions == NextSuggestions(current)
        invariant Furthest(current) == Furthest(old(board))
        decreases Measure(current)
      {
        PassLowersMeasure(current);
        current := board;
        Iterate(false);
      }
    }

    /** update: the cell becomes the typed digit if it is 1..9, else '0';
        no other cell changes. */
    method Update(entryBox: nat, entryValue: char)
      requires Valid() && entryBox < Cells
      modifies this`board
      ensures Valid()
      ensures board == old(board)[entryBox := EntryValue(entryValue)]
    {
      var value := entryValue;
      if !('0' <= value <= '9' && value != '0') {
        value := '0';
      }
      board := board[..entryBox] + [value] + board[entryBox + 1..];
    }

    /** check_ok: scans all 27 groups; any group with a repeated non-empty
        character makes the answer false and sets "Invalid Board". */
    method CheckOk() returns (allOk: bool)
      requires Valid()
      modifies this`status
      ensures allOk == BoardOk(board)
      ensures status == if allOk then old(status) else InvalidBoard
    {
      var every := AllGroups(board);
      allOk := true;
      for i := 0 to 27
        invariant allOk == GroupsOk(every[..i])
        invariant status == if allOk then old(status) else InvalidBoard
      {
        ScanOkStep(every, i);
        var nonZero := NonEmpty(every[i]);
        if |Elements(nonZero)| < |nonZero| {
          allOk := false;
          status := InvalidBoard;
        }
      }
      assert every[..27] == every;
    }

    /** check_complete: every group, as a set, is 1..9; sets "Completed
        Board" or "Incomplete Board". */
    method CheckComplete() returns (checkFlag: bool)
      requires Valid()
      modifies this`status
      ensures checkFlag == BoardComplete(board)
      ensures status == if checkFlag then CompletedBoard else IncompleteBoard
    {
      var every := AllGroups(board);
      checkFlag := true;
      for i := 0 to 27
        invariant checkFlag == GroupsComplete(every[..i])
      {
        ScanCompleteStep(every, i);
        if Elements(every[i]) != Standard {
          checkFlag := false;
        }
      }
      assert every[..27] == every;
      status := if checkFlag then CompletedBoard else IncompleteBoard;
    }

    /** The coarse backjump inside solve: cut the snapshot stack and the
        decision tree back to the shallowest level that still has untried
        digits, restore that level's snapshot and run one pass over it.
        None, with nothing changed, where every level is exhausted (the
        source's scan then runs off the end of the tree). */
    method Backjump(steps: seq<seq<char>>, tree: seq<Branch>)
      returns (level: Option<nat>, steps': seq<seq<char>>, tree': seq<Branch>)
      requires Valid() && 1 <= |steps| && Levels(steps, tree)
      modifies this
      ensures Valid() && status == old(status)
      ensures level.None? <==> forall k :: 0 <= k < |tree| ==> tree[k].untried == []
      ensures level.None? ==>
                board == old(board) && counts == old(counts) && suggestions == old(suggestions) &&
                steps' == steps && tree' == tree
      ensures level.Some? ==>
                level.value < |tree| && tree[level.value].untried != [] &&
                (forall k :: 0 <= k < level.value ==> tree[k].untried == []) &&
                steps' == steps[..level.value + 1] && tree' == tree[..level.value + 1] &&
                board == steps'[|steps'| - 1] && Settled()
      ensures 1 <= |steps'| && Levels(steps', tree')
    {
      level := FirstOpenLevel(tree);
      if level.None? {
        return level, steps, tree;
      }
      var index := level.value;
      LevelsPrefix(steps, tree, index + 1);
      steps' := steps[..index + 1];
      tree' := tree[..index + 1];
      Restore(steps', tree');
    }

    /** Go back to the top snapshot and run one pass over it, which leaves
        the board as it is and refreshes the suggestions and counts. */
    method Restore(steps: seq<seq<char>>, tree: seq<Branch>)
      requires 1 <= |steps| && Levels(steps, tree)
      modifies this
      ensures Settled() && board == steps[|steps| - 1] && status == old(status)
    {
      LevelsTop(steps, tree);
      board := steps[|steps| - 1];
      Iterate(false);
    }

    /** The first half of a search round: step back to the top snapshot
        from a board with a dead cell, then push a board that is not on
        the stack yet, with a branch on its first smallest count. stop is
        the source's first break: the board is dead and its snapshot is
        the only one. */
    method Prepare(steps: seq<seq<char>>, tree: seq<Branch>)
      returns (stop: bool, steps': seq<seq<char>>, tree': seq<Branch>)
      requires Settled() && 1 <= |steps| && Levels(steps, tree)
      modifies this`board
      ensures stop <==> Dead in counts && |steps| == 1
      ensures stop ==> board == old(board) && steps' == steps && tree' == tree
      ensures !stop ==>
                var b := Resumed(old(board), counts, steps);
                board == b && steps' == Snapshot(steps, b) &&
                tree' == Branched(steps, tree, b, counts, suggestions)
      ensures Valid() && 1 <= |steps'| && Levels(steps', tree')
      ensures stop || |steps'| == 1 ==> Settled()
    {
      steps', tree' := steps, tree;
      if Dead in counts {
        if |steps| == 1 {
          return true, steps, tree;
        }
        LevelsTop(steps, tree);
        board := steps[|steps| - 1];
      }
      if steps[|steps| - 1] != board {
        var cell := FirstMinIndex(counts);
        LevelsPush(steps, tree, board, Branch(cell, suggestions[cell]));
        steps' := steps + [board];
        tree' := tree + [Branch(cell, suggestions[cell])];
      }
      stop := false;
    }

    /** Try the next digit of the top level: pop it off the level's
        untried list, enter it into its cell and propagate. */
    method TryNext(steps: seq<seq<char>>, tree: seq<Branch>)
      returns (tree': seq<Branch>)
      requires Valid() && 1 <= |steps| && Levels(steps, tree)
      requires tree[|tree| - 1].untried != []
      modifies this
      ensures var top := tree[|tree| - 1];
              top.cell < Cells &&
              tree' == tree[|tree| - 1 := Branch(top.cell, top.untried[1..])] &&
              board == Furthest(old(board)[top.cell := EntryValue(top.untried[0])])
      ensures Settled() && status == old(status) && Levels(steps, tree')
    {
      LevelsTop(steps, tree);
      var top := tree[|tree| - 1];
      LevelsPop(steps, tree);
      tree' := tree[|tree| - 1 := Branch(top.cell, top.untried[1..])];
      Update(top.cell, top.untried[0]);
      GetFurthest();
    }

    /** Drop the exhausted top level and go back to the snapshot below it. */
    method PopLevel(steps: seq<seq<char>>, tree: seq<Branch>)
      returns (steps': seq<seq<char>>, tree': seq<Branch>)
      requires 2 <= |steps| && Levels(steps, tree)
      modifies this
      ensures steps' == steps[..|steps| - 1] && tree' == tree[..|tree| - 1]
      ensures board == steps'[|steps'| - 1]
      ensures Settled() && status == old(status) && 1 <= |steps'| && Levels(steps', tree')
    {
      LevelsPrefix(steps, tree, |steps| - 1);
      steps' := steps[..|steps| - 1];
      tree' := tree[..|tree| - 1];
      Restore(steps', tree');
    }

    /** solve's search loop: from a settled board that is not complete,
        branch on the first smallest count, keeping a stack of board
        snapshots and a decision tree in lockstep, for at most pathDepth
        rounds per trial and pathNumber trials. Whichever way it ends, the
        board is settled; RaisedIndexError is the backjump scan running off
        the tree, with the board still incomplete. */
    method Search(pathDepth: nat, pathNumber: nat) returns (exit: Exit)
      requires Settled() && !BoardComplete(board)
      modifies this
      ensures Settled()
      ensures exit == RaisedIndexError ==> !BoardComplete(board) && status == IncompleteBoard
    {
      var steps := [board];
      var first := FirstMinIndex(counts);
      var tree := [Branch(first, suggestions[first])];
      var run, trial := 1, 1;
      var complete := CheckComplete();
      while !complete && trial <= pathNumber
        invariant Settled() && 1 <= |steps| && Levels(steps, tree)
        invariant 0 <= run <= pathDepth + 1 && trial <= pathNumber + 1
        invariant !complete ==> !BoardComplete(board)
        invariant status == if complete then CompletedBoard else IncompleteBoard
        decreases pathNumber + 1 - trial, pathDepth + 1 - run
      {
        run := run + 1;
        if run > pathDepth {
          trial := trial + 1;
          run := 0;
          var level;
          level, steps, tree := Backjump(steps, tree);
          if level.None? {
            return RaisedIndexError;
          }
        }
        var stop;
        stop, steps, tree := Prepare(steps, tree);
        if stop {
          break;
        }
        LevelsTop(steps, tree);
        if tree[|tree| - 1].untried != [] {
          tree := TryNext(steps, tree);
        } else if |steps| == 1 {
          break;
        } else {
          steps, tree := PopLevel(steps, tree);
        }
        complete := CheckComplete();
      }
      exit := Returned;
    }

    /** solve: check the given board, propagate, and search when
        propagation alone does not complete it. A board that is still not
        complete afterwards is replaced by the given one. */
    method Solve(pathDepth: nat, pathNumber: nat) returns (exit: Exit)
      requires Valid()
      modifies this
      ensures Valid()
      ensures !BoardOk(old(board)) ==> exit == Returned && board == old(board) && status == RepeatedValues
      ensures BoardOk(old(board)) && exit == Returned ==>
                (BoardComplete(board) && status == CompletedBoard) ||
                (board == old(board) && status == NoSolutionFound)
      ensures BoardOk(old(board)) && BoardComplete(Furthest(old(board))) ==>
                exit == Returned && board == Furthest(old(board)) && status == CompletedBoard
      ensures !BoardOk(old(board)) ==> counts == old(counts) && suggestions == old(suggestions)
      ensures status == CompletedBoard ==> Settled()
      ensures exit == RaisedIndexError ==>
                BoardOk(old(board)) && Settled() && !BoardComplete(board) && status == IncompleteBoard
    {
      var given := board;
      var ok := CheckOk();
      if !ok {
        status := RepeatedValues;
        return Returned;
      }
      GetFurthest();
      var complete := CheckComplete();
      if !complete {
        exit := Search(pathDepth, pathNumber);
        if exit == RaisedIndexError {
          return;
        }
      }
      complete := CheckComplete();
      if !complete {
        board := given;
        status := NoSolutionFound;
      }
      return Returned;
    }
  }
}
