/** One propagation pass (iterate) as a function of the board it starts
    from, and its repetition to a fixed point (get_furthest). The engine's
    methods are proved equal to these functions; the lemmas here say what
    the functions mean. */
module Propagate {
  import opened Grid

  /** Count recorded for a filled cell and for a cell forced this pass. */
  const Fixed: nat := 10
  /** Count recorded for an empty cell with no candidate left. */
  const Dead: nat := 11

  predicate Increasing(s: seq<char>) {
    forall i, j :: 0 <= i < j < |s| ==> s[i] < s[j]
  }

  /** The entries of an increasing list that are not taken, in order. */
  function Keep(ds: seq<char>, taken: set<char>): (r: seq<char>)
    requires Increasing(ds)
    ensures forall d :: d in r <==> d in ds && d !in taken
    ensures Increasing(r) && |r| <= |ds|
  {
    if ds == [] then []
    else if ds[0] in taken then Keep(ds[1..], taken)
    else
      var rest := Keep(ds[1..], taken);
      HeadBelowTail(ds, rest);
      [ds[0]] + rest
  }

  /** The head of an increasing list is below every entry drawn from its
      tail, so it can go in front of an increasing list of such entries. */
  lemma HeadBelowTail(ds: seq<char>, rest: seq<char>)
    requires Increasing(ds) && ds != [] && Increasing(rest)
    requires forall x :: x in rest ==> x in ds[1..]
    ensures Increasing([ds[0]] + rest)
  {
    forall x | x in rest ensures ds[0] < x {
      var k :| 0 <= k < |ds| - 1 && ds[1..][k] == x;
      assert ds[k + 1] == x;
    }
    var r := [ds[0]] + rest;
    forall i, j | 0 <= i < j < |r| ensures r[i] < r[j] {
      assert r[j] == rest[j - 1] && r[j] in rest;
      if i > 0 { assert r[i] == rest[i - 1]; }
    }
  }

  /** The sorted list of digits 1..9 that are not taken. */
  function Remaining(taken: set<char>): (r: seq<char>)
    ensures forall d :: d in r <==> d in Digits && d !in taken
    ensures Increasing(r) && |r| <= 9
  {
    Keep(Digits, taken)
  }

  /** Every character in the row, column and block of cell c. */
  function Seen(b: seq<char>, c: nat): set<char>
    requires IsBoard(b)
  {
    set p | 0 <= p < Cells && Peer(c, p) :: b[p]
  }

  /** Digit d may still go in cell c: no peer of c holds it. */
  predicate Free(b: seq<char>, c: nat, d: char)
    requires IsBoard(b)
  {
    d in Digits && forall p :: 0 <= p < Cells && Peer(c, p) ==> b[p] != d
  }

  /** The candidates of cell c, smallest first. */
  function Candidates(b: seq<char>, c: nat): (r: seq<char>)
    requires IsBoard(b)
    ensures forall d :: d in r <==> Free(b, c, d)
    ensures Increasing(r) && |r| <= 9
  {
    var r := Remaining(Seen(b, c));
    assert forall d :: d in r <==> Free(b, c, d) by {
      forall d ensures d in r <==> Free(b, c, d) {
        if d in Digits && d !in Seen(b, c) {
          forall p | 0 <= p < Cells && Peer(c, p) ensures b[p] != d {
            assert b[p] in Seen(b, c);
          }
        }
      }
    }
    r
  }

  /** What iterate collects for an empty cell: every character of the
      cell's row, column and block as board_parser split them. */
  function Taken(g: Groups, row: nat, column: nat, block: nat): (r: set<char>)
    requires NineByNine(g.rows) && NineByNine(g.columns) && NineByNine(g.blocks)
    requires row < 9 && column < 9 && block < 9
    ensures forall x :: x in r <==> x in g.rows[row] || x in g.columns[column] || x in g.blocks[block]
  {
    set x | x in g.rows[row] + g.columns[column] + g.blocks[block]
  }

  /** The row, column and block that iterate reads for cell c (with its
      inline block number) hold exactly the characters of c's peers. */
  lemma TakenIsSeen(b: seq<char>, c: nat)
    requires IsBoard(b) && c < Cells
    ensures Row(c) < 9 && Col(c) < 9
    ensures Taken(BoardParser(b), Row(c), Col(c), InlineBlock(c)) == Seen(b, c)
  {
    CellCovered(c);
    forall x | x in Taken(BoardParser(b), Row(c), Col(c), BlockOf(c)) ensures x in Seen(b, c) {
      TakenCharIsSeen(b, c, x);
    }
    forall x | x in Seen(b, c) ensures x in Taken(BoardParser(b), Row(c), Col(c), BlockOf(c)) {
      SeenCharIsTaken(b, c, x);
    }
  }

  /** The list iterate computes for an empty cell, from the row, column
      and inline block number it works out, is the cell's candidates. */
  lemma TakenGivesCandidates(b: seq<char>, c: nat, row: nat, column: nat, block: nat)
    requires IsBoard(b) && c < Cells
    requires row == c / 9 && column == c % 9 && block == InlineBlock(c)
    ensures row < 9 && column < 9 && block < 9
    ensures Remaining(Taken(BoardParser(b), row, column, block)) == Candidates(b, c)
  {
    TakenIsSeen(b, c);
  }

  lemma TakenCharIsSeen(b: seq<char>, c: nat, x: char)
    requires IsBoard(b) && c < Cells && Row(c) < 9 && Col(c) < 9 && BlockOf(c) < 9
    requires x in Taken(BoardParser(b), Row(c), Col(c), BlockOf(c))
    ensures x in Seen(b, c)
  {
    var g := BoardParser(b);
    var row, column, block := g.rows[Row(c)], g.columns[Col(c)], g.blocks[BlockOf(c)];
    assert x in row || x in column || x in block;
    var p := PeerHolding(b, c, x);
    PeerInSeen(b, c, p);
  }

  /** A character of cell c's row, column or block is held by a peer of c. */
  lemma PeerHolding(b: seq<char>, c: nat, x: char) returns (p: nat)
    requires IsBoard(b) && c < Cells && Row(c) < 9 && Col(c) < 9 && BlockOf(c) < 9
    requires var g := BoardParser(b);
             x in g.rows[Row(c)] || x in g.columns[Col(c)] || x in g.blocks[BlockOf(c)]
    ensures p < Cells && Peer(c, p) && b[p] == x
  {
    var g := BoardParser(b);
    if x in g.rows[Row(c)] {
      var j :| 0 <= j < 9 && g.rows[Row(c)][j] == x;
      GroupEntryIsCell(Row(c), j);
      p := RowCell(Row(c), j);
    } else if x in g.columns[Col(c)] {
      var j :| 0 <= j < 9 && g.columns[Col(c)][j] == x;
      GroupEntryIsCell(Col(c), j);
      p := ColumnCell(Col(c), j);
    } else {
      var j :| 0 <= j < 9 && g.blocks[BlockOf(c)][j] == x;
      GroupEntryIsCell(BlockOf(c), j);
      p := BlockCell(BlockOf(c), j);
    }
  }

  lemma PeerInSeen(b: seq<char>, c: nat, p: nat)
    requires IsBoard(b) && p < Cells && Peer(c, p)
    ensures b[p] in Seen(b, c)
  {
  }

  lemma SeenCharIsTaken(b: seq<char>, c: nat, x: char)
    requires IsBoard(b) && c < Cells && Row(c) < 9 && Col(c) < 9 && BlockOf(c) < 9
    requires x in Seen(b, c)
    ensures x in Taken(BoardParser(b), Row(c), Col(c), BlockOf(c))
  {
    var g := BoardParser(b);
    var row, column, block := g.rows[Row(c)], g.columns[Col(c)], g.blocks[BlockOf(c)];
    var p :| 0 <= p < Cells && Peer(c, p) && b[p] == x;
    ParserPlacesCell(b, p);
    if Row(c) == Row(p) {
      assert row[Col(p)] == x;
    } else if Col(c) == Col(p) {
      assert column[Row(p)] == x;
    } else {
      assert block[PosInBlock(p)] == x;
    }
    assert x in row + column + block;
  }

  // What one pass does with cell c (the body of iterate's loop).

  /** Cell c is forced to d: d is free there and no other digit is. */
  predicate OnlyFree(b: seq<char>, c: nat, d: char)
    requires IsBoard(b)
  {
    Free(b, c, d) && forall e :: Free(b, c, e) ==> e == d
  }

  /** The candidate list of a cell has one entry exactly when a digit is
      forced there, and none exactly when no digit is free. */
  lemma CandidateCount(b: seq<char>, c: nat)
    requires IsBoard(b) && c < Cells
    ensures |Candidates(b, c)| == 1 <==> exists d :: OnlyFree(b, c, d)
    ensures |Candidates(b, c)| == 1 ==> OnlyFree(b, c, Candidates(b, c)[0])
    ensures |Candidates(b, c)| == 0 <==> forall d :: !Free(b, c, d)
  {
    var cands := Candidates(b, c);
    if |cands| == 1 {
      assert cands[0] in cands;
      assert OnlyFree(b, c, cands[0]);
    }
    if |cands| >= 2 {
      assert cands[0] in cands && cands[1] in cands;
      assert !exists d :: OnlyFree(b, c, d);
    }
    if |cands| != 0 {
      assert cands[0] in cands;
    }
  }

  /** What one pass writes into cell c: a filled cell is copied; an empty
      cell stays empty ('0' or the marker, the marker only when markers are
      on) or gets a digit 1..9. IterateCell says which. */
  function CellAfter(b: seq<char>, c: nat, markers: bool): (r: char)
    requires IsBoard(b) && c < Cells
    ensures !IsEmpty(b[c]) ==> r == b[c]
    ensures IsEmpty(b[c]) ==> r == '0' || r == '_' || '1' <= r <= '9'
    ensures r == '_' ==> markers && IsEmpty(b[c])
  {
    if !IsEmpty(b[c]) then b[c]
    else
      var cands := Candidates(b, c);
      if |cands| == 0 then '0'
      else if |cands| == 1 then
        assert cands[0] in cands;
        cands[0]
      else if markers then '_' else '0'
  }

  /** The count one pass records for cell c (its suggestion_lengths
      entry): 10 for a filled or forced cell, 11 for a cell with no free
      digit, otherwise the length of its suggestion list, 2 to 9. */
  function CountAfter(b: seq<char>, c: nat): (n: nat)
    requires IsBoard(b) && c < Cells
    ensures 2 <= n <= Dead
    ensures !IsEmpty(b[c]) ==> n == Fixed
    ensures n <= 9 ==> IsEmpty(b[c]) && n == |SuggestionAfter(b, c)|
  {
    if !IsEmpty(b[c]) then Fixed
    else
      var n := |Candidates(b, c)|;
      if n == 0 then Dead else if n == 1 then Fixed else n
  }

  /** The suggestion list one pass records for cell c: at most the nine
      digits for an empty cell; a filled cell gets the single entry '0'
      (the source's [0], used only as str(0) when branching). */
  function SuggestionAfter(b: seq<char>, c: nat): (r: seq<char>)
    requires IsBoard(b) && c < Cells
    ensures !IsEmpty(b[c]) ==> r == ['0']
    ensures |r| <= 9
  {
    if !IsEmpty(b[c]) then ['0'] else Candidates(b, c)
  }

  /** The board one pass of iterate produces. */
  function NextBoard(b: seq<char>, markers: bool): (r: seq<char>)
    requires IsBoard(b)
    ensures IsBoard(r)
  {
    seq(Cells, c requires 0 <= c < Cells => CellAfter(b, c, markers))
  }

  /** The per-cell counts (suggestion_lengths) one pass records. */
  function NextCounts(b: seq<char>): (r: seq<nat>)
    requires IsBoard(b)
    ensures |r| == Cells
    ensures forall c :: 0 <= c < Cells ==> 2 <= r[c] <= Dead
  {
    seq(Cells, c requires 0 <= c < Cells => CountAfter(b, c))
  }

  /** The per-cell suggestion lists one pass records. */
  function NextSuggestions(b: seq<char>): (r: seq<seq<char>>)
    requires IsBoard(b)
    ensures |r| == Cells
    ensures forall c :: 0 <= c < Cells ==> |r[c]| <= 9
  {
    seq(Cells, c requires 0 <= c < Cells => SuggestionAfter(b, c))
  }

  /** The pass, read one cell further: the prefixes of its results grow by
      the values for cell i. */
  lemma PassPrefix(b: seq<char>, markers: bool, i: nat)
    requires IsBoard(b) && i < Cells
    ensures NextBoard(b, markers)[..i + 1] == NextBoard(b, markers)[..i] + [CellAfter(b, i, markers)]
    ensures NextCounts(b)[..i + 1] == NextCounts(b)[..i] + [CountAfter(b, i)]
    ensures NextSuggestions(b)[..i + 1] == NextSuggestions(b)[..i] + [SuggestionAfter(b, i)]
  {
    TakeOneMore(NextBoard(b, markers), i);
    TakeOneMore(NextCounts(b), i);
    TakeOneMore(NextSuggestions(b), i);
  }

  lemma TakeOneMore<T>(s: seq<T>, i: nat)
    requires i < |s|
    ensures s[..i + 1] == s[..i] + [s[i]]
  {
  }

  /** What one pass does with each cell, in terms of the digits its peers
      hold on the board the pass started from:
      a filled cell is copied with count 10; an empty cell with exactly one
      free digit gets that digit and count 10; an empty cell with no free
      digit becomes '0' with count 11; any other empty cell gets the marker
      and counts its free digits (2 to 9), which are its suggestions. */
  lemma IterateCell(b: seq<char>, markers: bool, c: nat)
    requires IsBoard(b) && c < Cells
    ensures !IsEmpty(b[c]) ==>
              NextBoard(b, markers)[c] == b[c] && NextCounts(b)[c] == Fixed &&
              NextSuggestions(b)[c] == ['0']
    ensures IsEmpty(b[c]) ==>
              (NextCounts(b)[c] == Fixed <==> exists d :: OnlyFree(b, c, d)) &&
              (NextCounts(b)[c] == Fixed ==> OnlyFree(b, c, NextBoard(b, markers)[c]))
    ensures IsEmpty(b[c]) ==>
              (NextCounts(b)[c] == Dead <==> forall d :: !Free(b, c, d)) &&
              (NextCounts(b)[c] == Dead ==> NextBoard(b, markers)[c] == '0')
    ensures IsEmpty(b[c]) && NextCounts(b)[c] != Fixed && NextCounts(b)[c] != Dead ==>
              2 <= NextCounts(b)[c] <= 9 && NextCounts(b)[c] == |NextSuggestions(b)[c]| &&
              NextBoard(b, markers)[c] == (if markers then '_' else '0')
    ensures IsEmpty(b[c]) ==>
              Increasing(NextSuggestions(b)[c]) &&
              forall d :: d in NextSuggestions(b)[c] <==> Free(b, c, d)
  {
    if IsEmpty(b[c]) {
      CandidateCount(b, c);
      if |Candidates(b, c)| == 0 {
        assert forall d :: !Free(b, c, d);
      }
    }
  }

  // Termination of get_furthest: empty cells weigh 1, markers 2.

  function Weight(ch: char): nat {
    if ch == '0' then 1 else if ch == '_' then 2 else 0
  }

  /** Number of empty cells plus number of marker cells. */
  function Measure(s: seq<char>): nat {
    if s == [] then 0 else Weight(s[0]) + Measure(s[1..])
  }

  /** A board that is nowhere heavier than another weighs no more, and
      weighs strictly less when it is lighter in cell k. */
  lemma {:induction false} MeasureDrops(s: seq<char>, t: seq<char>, k: nat)
    requires |s| == |t| && k < |s|
    requires forall i :: 0 <= i < |s| ==> Weight(t[i]) <= Weight(s[i])
    ensures Measure(t) <= Measure(s)
    ensures Weight(t[k]) < Weight(s[k]) ==> Measure(t) < Measure(s)
  {
    if |s| > 1 {
      MeasureDrops(s[1..], t[1..], if k == 0 then 0 else k - 1);
    }
  }

  /** A pass without markers never makes a cell heavier, and makes every
      cell it changes lighter. */
  lemma PassCellLighter(b: seq<char>, c: nat)
    requires IsBoard(b) && c < Cells
    ensures Weight(NextBoard(b, false)[c]) <= Weight(b[c])
    ensures NextBoard(b, false)[c] != b[c] ==> Weight(NextBoard(b, false)[c]) < Weight(b[c])
  {
    if IsEmpty(b[c]) && |Candidates(b, c)| == 1 {
      assert Candidates(b, c)[0] in Candidates(b, c);
    }
  }

  /** A pass without markers that changes the board strictly lowers the
      measure: this is what makes get_furthest stop. */
  lemma PassLowersMeasure(b: seq<char>)
    requires IsBoard(b) && NextBoard(b, false) != b
    ensures Measure(NextBoard(b, false)) < Measure(b)
  {
    var n := NextBoard(b, false);
    forall i | 0 <= i < Cells ensures Weight(n[i]) <= Weight(b[i]) {
      PassCellLighter(b, i);
    }
    var k :| 0 <= k < Cells && n[k] != b[k];
    PassCellLighter(b, k);
    MeasureDrops(b, n, k);
  }

  /** get_furthest: passes without markers until one changes nothing. The
      result is a fixed point of the pass, and every filled cell of the
      starting board keeps its character. */
  function Furthest(b: seq<char>): (r: seq<char>)
    requires IsBoard(b)
    ensures IsBoard(r) && NextBoard(r, false) == r
    ensures forall c :: 0 <= c < Cells && !IsEmpty(b[c]) ==> r[c] == b[c]
    decreases Measure(b)
  {
    var n := NextBoard(b, false);
    if n == b then b
    else
      PassLowersMeasure(b);
      var r := Furthest(n);
      assert forall c :: 0 <= c < Cells && !IsEmpty(b[c]) ==> n[c] == b[c];
      r
  }

  /** Propagating a board that is already propagated changes nothing. */
  lemma FurthestIdempotent(b: seq<char>)
    requires IsBoard(b)
    ensures Furthest(Furthest(b)) == Furthest(b)
  {
  }
}
