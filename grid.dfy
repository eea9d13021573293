/** The 81-cell board and its decomposition into rows, columns and blocks
    (the board_parser of the engine, and the cell geometry that iterate
    works out inline). */
module Grid {

  /** Number of cells on a board; a board is a string of exactly this length. */
  const Cells := 81

  predicate IsBoard(b: seq<char>) { |b| == Cells }

  /** The digits 1 to 9 in increasing order (the engine's STANDARD, read
      in the order iterate sorts it). */
  const Digits: seq<char> := "123456789"

  /** STANDARD itself: the set of those digits, which every finished group
      must equal. */
  const Standard: set<char> := set d | d in Digits

  /** STANDARD has nine members. */
  lemma StandardDigits()
    ensures |Standard| == 9
  {
    var nine := {'1', '2', '3', '4', '5', '6', '7', '8', '9'};
    assert |nine| == 9;
    StandardListed();
  }

  /** STANDARD is exactly the characters '1' to '9'. */
  lemma StandardListed()
    ensures Standard == {'1', '2', '3', '4', '5', '6', '7', '8', '9'}
  {
    forall d | d in Digits ensures d in {'1', '2', '3', '4', '5', '6', '7', '8', '9'} {
      ListedDigit(d);
    }
    forall d | d in {'1', '2', '3', '4', '5', '6', '7', '8', '9'} ensures d in Digits {
      DigitListed(d);
    }
  }

  lemma ListedDigit(d: char)
    requires d in Digits
    ensures d in {'1', '2', '3', '4', '5', '6', '7', '8', '9'}
  {
    var i :| 0 <= i < 9 && Digits[i] == d;
  }

  lemma DigitListed(d: char)
    requires d in {'1', '2', '3', '4', '5', '6', '7', '8', '9'}
    ensures d in Digits
  {
    assert d == Digits[d as int - '1' as int];
  }

  /** Cells that count as empty: '0', and '_' (a display marker for
      "several candidates"). Every other character is a filled cell. */
  predicate IsEmpty(ch: char) { ch == '0' || ch == '_' }

  // Cell geometry: row, column, block, and position inside the block.
  function Row(c: nat): nat { c / 9 }
  function Col(c: nat): nat { c % 9 }
  function BlockOf(c: nat): nat { 3 * (Row(c) / 3) + Col(c) / 3 }
  function PosInBlock(c: nat): nat { 3 * (Row(c) % 3) + Col(c) % 3 }

  /** The block number iterate computes for an empty cell, with the same
      three-way split on the row. */
  function InlineBlock(index: nat): (block: nat)
    requires index < Cells
    ensures block == BlockOf(index) && block < 9
  {
    var column := index % 9;
    var row := index / 9;
    if row <= 2 then column / 3
    else if row <= 5 then 3 + column / 3
    else 6 + column / 3
  }

  // Where board_parser reads the p-th entry of group g.
  function RowCell(g: nat, p: nat): nat { 9 * g + p }
  function ColumnCell(g: nat, p: nat): nat { g + 9 * p }
  function BlockCell(g: nat, p: nat): nat { 27 * (g / 3) + 3 * (g % 3) + 9 * (p / 3) + p % 3 }

  /** Two cells constrain each other when they share a row, a column or a
      block (a cell is its own peer). */
  predicate Peer(c: nat, p: nat) {
    Row(c) == Row(p) || Col(c) == Col(p) || BlockOf(c) == BlockOf(p)
  }

  /** What board_parser returns: 9 rows, 9 columns and 9 blocks of 9 cells. */
  datatype Groups = Groups(rows: seq<seq<char>>, columns: seq<seq<char>>, blocks: seq<seq<char>>)

  predicate NineByNine(gs: seq<seq<char>>) {
    |gs| == 9 && forall g :: 0 <= g < 9 ==> |gs[g]| == 9
  }

  /** board_parser: every entry of a group is the board cell the group
      covers there (ParserPlacesCell states the converse, cell by cell). */
  function BoardParser(b: seq<char>): (r: Groups)
    requires IsBoard(b)
    ensures NineByNine(r.rows) && NineByNine(r.columns) && NineByNine(r.blocks)
    ensures forall g, p :: 0 <= g < 9 && 0 <= p < 9 ==>
              RowCell(g, p) < Cells && r.rows[g][p] == b[RowCell(g, p)] &&
              ColumnCell(g, p) < Cells && r.columns[g][p] == b[ColumnCell(g, p)] &&
              BlockCell(g, p) < Cells && r.blocks[g][p] == b[BlockCell(g, p)]
  {
    Groups(ParseRows(b), ParseColumns(b), ParseBlocks(b))
  }

  // The three loops of board_parser, one function each.

  function ParseRows(b: seq<char>): (rows: seq<seq<char>>)
    requires IsBoard(b)
    ensures NineByNine(rows)
    ensures forall g, p :: 0 <= g < 9 && 0 <= p < 9 ==>
              RowCell(g, p) < Cells && rows[g][p] == b[RowCell(g, p)]
  {
    seq(9, i requires 0 <= i < 9 => RowAt(b, i))
  }

  function RowAt(b: seq<char>, i: nat): (row: seq<char>)
    requires IsBoard(b) && i < 9
    ensures |row| == 9
    ensures forall j :: 0 <= j < 9 ==> RowCell(i, j) < Cells && row[j] == b[RowCell(i, j)]
  {
    forall j | 0 <= j < 9 ensures RowCell(i, j) < Cells {
      GroupEntryIsCell(i, j);
    }
    seq(9, j requires 0 <= j < 9 => b[RowCell(i, j)])
  }

  function ParseColumns(b: seq<char>): (columns: seq<seq<char>>)
    requires IsBoard(b)
    ensures NineByNine(columns)
    ensures forall g, p :: 0 <= g < 9 && 0 <= p < 9 ==>
              ColumnCell(g, p) < Cells && columns[g][p] == b[ColumnCell(g, p)]
  {
    seq(9, i requires 0 <= i < 9 => ColumnAt(b, i))
  }

  function ColumnAt(b: seq<char>, i: nat): (column: seq<char>)
    requires IsBoard(b) && i < 9
    ensures |column| == 9
    ensures forall j :: 0 <= j < 9 ==> ColumnCell(i, j) < Cells && column[j] == b[ColumnCell(i, j)]
  {
    forall j | 0 <= j < 9 ensures ColumnCell(i, j) < Cells {
      GroupEntryIsCell(i, j);
    }
    seq(9, j requires 0 <= j < 9 => b[ColumnCell(i, j)])
  }

  function ParseBlocks(b: seq<char>): (blocks: seq<seq<char>>)
    requires IsBoard(b)
    ensures NineByNine(blocks)
    ensures forall g, p :: 0 <= g < 9 && 0 <= p < 9 ==>
              BlockCell(g, p) < Cells && blocks[g][p] == b[BlockCell(g, p)]
  {
    seq(9, g requires 0 <= g < 9 => BlockAt(b, g))
  }

  function BlockAt(b: seq<char>, g: nat): (block: seq<char>)
    requires IsBoard(b) && g < 9
    ensures |block| == 9
    ensures forall p :: 0 <= p < 9 ==> BlockCell(g, p) < Cells && block[p] == b[BlockCell(g, p)]
  {
    forall p | 0 <= p < 9 ensures BlockCell(g, p) < Cells {
      GroupEntryIsCell(g, p);
    }
    seq(9, p requires 0 <= p < 9 => b[BlockCell(g, p)])
  }

  /** board_parser puts every cell in its own row at its column, in its
      own column at its row, and in its own block at its block position. */
  lemma ParserPlacesCell(b: seq<char>, c: nat)
    requires IsBoard(b) && c < Cells
    ensures Row(c) < 9 && Col(c) < 9 && BlockOf(c) < 9 && PosInBlock(c) < 9
    ensures BoardParser(b).rows[Row(c)][Col(c)] == b[c]
    ensures BoardParser(b).columns[Col(c)][Row(c)] == b[c]
    ensures BoardParser(b).blocks[BlockOf(c)][PosInBlock(c)] == b[c]
  {
    CellCovered(c);
  }

  /** Every cell is found again from its row and column, and from its block
      and block position. */
  lemma CellCovered(c: nat)
    requires c < Cells
    ensures Row(c) < 9 && Col(c) < 9 && BlockOf(c) < 9 && PosInBlock(c) < 9
    ensures RowCell(Row(c), Col(c)) == c
    ensures ColumnCell(Col(c), Row(c)) == c
    ensures BlockCell(BlockOf(c), PosInBlock(c)) == c
  {
    var r, k := c / 9, c % 9;
    var i, m := r / 3, r % 3;
    var j, l := k / 3, k % 3;
    assert c == 9 * r + k && r < 9;
    assert r == 3 * i + m && k == 3 * j + l;
    var g, p := 3 * i + j, 3 * m + l;
    DivMod3(g, i, j);
    DivMod3(p, m, l);
    assert BlockCell(g, p) == 27 * i + 3 * j + 9 * m + l;
  }

  /** Every entry of every group is a cell, and the cell's geometry names
      that group and that position again. */
  lemma GroupEntryIsCell(g: nat, p: nat)
    requires g < 9 && p < 9
    ensures RowCell(g, p) < Cells && Row(RowCell(g, p)) == g && Col(RowCell(g, p)) == p
    ensures ColumnCell(g, p) < Cells && Col(ColumnCell(g, p)) == g && Row(ColumnCell(g, p)) == p
    ensures BlockCell(g, p) < Cells && BlockOf(BlockCell(g, p)) == g && PosInBlock(BlockCell(g, p)) == p
  {
    DivMod9(RowCell(g, p), g, p);
    DivMod9(ColumnCell(g, p), p, g);
    var i, j, k, l := g / 3, g % 3, p / 3, p % 3;
    assert g == 3 * i + j && p == 3 * k + l;
    var c := BlockCell(g, p);
    var r, q := 3 * i + k, 3 * j + l;
    assert c == 9 * r + q;
    DivMod9(c, r, q);
    DivMod3(r, i, k);
    DivMod3(q, j, l);
  }

  lemma DivMod9(x: nat, q: nat, r: nat)
    requires x == 9 * q + r && r < 9
    ensures x / 9 == q && x % 9 == r
  {
  }

  lemma DivMod3(x: nat, q: nat, r: nat)
    requires x == 3 * q + r && r < 3
    ensures x / 3 == q && x % 3 == r
  {
  }

  /** Each kind of group covers every cell exactly once: a cell sits at
      (group g, position p) of the rows, of the columns and of the blocks
      for exactly one pair (g, p). */
  lemma ExactlyOnce(c: nat, g: nat, p: nat)
    requires c < Cells && g < 9 && p < 9
    ensures RowCell(g, p) == c <==> g == Row(c) && p == Col(c)
    ensures ColumnCell(g, p) == c <==> g == Col(c) && p == Row(c)
    ensures BlockCell(g, p) == c <==> g == BlockOf(c) && p == PosInBlock(c)
  {
    CellCovered(c);
    GroupEntryIsCell(g, p);
  }
}
