/** The two board validators: check_ok (no repeated digit in any row,
    column or block, empties ignored) and check_complete (every row, column
    and block is exactly the digits 1 to 9). Both are stated as the source
    computes them, over the 27 groups, and are then characterised cell by
    cell through the peer relation. */
module Validate {
  import opened Grid

  /** The 27 groups the validators scan: rows, then columns, then blocks. */
  function AllGroups(b: seq<char>): (gs: seq<seq<char>>)
    requires IsBoard(b)
    ensures |gs| == 27 && forall i :: 0 <= i < 27 ==> |gs[i]| == 9
  {
    var g := BoardParser(b);
    g.rows + g.columns + g.blocks
  }

  /** The cell that sits at position p of group i of AllGroups. */
  function GroupCell(i: nat, p: nat): nat
    requires i < 27
  {
    if i < 9 then RowCell(i, p) else if i < 18 then ColumnCell(i - 9, p) else BlockCell(i - 18, p)
  }

  /** Whether cell c belongs to group i of AllGroups. */
  predicate InGroup(i: nat, c: nat)
    requires i < 27
  {
    if i < 9 then Row(c) == i else if i < 18 then Col(c) == i - 9 else BlockOf(c) == i - 18
  }

  /** Position of cell c inside group i. */
  function PosInGroup(i: nat, c: nat): nat
    requires i < 27
  {
    if i < 9 then Col(c) else if i < 18 then Row(c) else PosInBlock(c)
  }

  /** Group i holds, at position p, the board cell GroupCell(i, p), which
      belongs to group i at that very position; and a cell of group i is
      found at its position there. */
  lemma GroupLayout(b: seq<char>, i: nat)
    requires IsBoard(b) && i < 27
    ensures forall p :: 0 <= p < 9 ==>
              GroupCell(i, p) < Cells && AllGroups(b)[i][p] == b[GroupCell(i, p)] &&
              InGroup(i, GroupCell(i, p)) && PosInGroup(i, GroupCell(i, p)) == p
    ensures forall c :: 0 <= c < Cells && InGroup(i, c) ==>
              PosInGroup(i, c) < 9 && GroupCell(i, PosInGroup(i, c)) == c
  {
    forall p | 0 <= p < 9
      ensures GroupCell(i, p) < Cells && AllGroups(b)[i][p] == b[GroupCell(i, p)]
      ensures InGroup(i, GroupCell(i, p)) && PosInGroup(i, GroupCell(i, p)) == p
    {
      GroupEntry(b, i, p);
    }
    forall c | 0 <= c < Cells && InGroup(i, c)
      ensures PosInGroup(i, c) < 9 && GroupCell(i, PosInGroup(i, c)) == c
    {
      CellCovered(c);
    }
  }

  /** One entry of one group: the board cell it is, and where that cell
      sits. */
  lemma GroupEntry(b: seq<char>, i: nat, p: nat)
    requires IsBoard(b) && i < 27 && p < 9
    ensures GroupCell(i, p) < Cells && AllGroups(b)[i][p] == b[GroupCell(i, p)]
    ensures InGroup(i, GroupCell(i, p)) && PosInGroup(i, GroupCell(i, p)) == p
  {
    var g := BoardParser(b);
    var gs := AllGroups(b);
    assert gs == g.rows + g.columns + g.blocks;
    if i < 9 {
      assert gs[i] == g.rows[i];
      GroupEntryIsCell(i, p);
    } else if i < 18 {
      assert gs[i] == g.columns[i - 9];
      GroupEntryIsCell(i - 9, p);
    } else {
      assert gs[i] == g.blocks[i - 18];
      GroupEntryIsCell(i - 18, p);
    }
  }

  /** Two distinct peers share at least one group of AllGroups. */
  lemma PeersShareGroup(p: nat, q: nat) returns (i: nat)
    requires p < Cells && q < Cells && Peer(p, q)
    ensures i < 27 && InGroup(i, p) && InGroup(i, q)
  {
    CellCovered(p);
    if Row(p) == Row(q) {
      i := Row(p);
    } else if Col(p) == Col(q) {
      i := 9 + Col(p);
    } else {
      i := 18 + BlockOf(p);
    }
  }

  // ---------------------------------------------------------------------
  // Sequences of cells: repeats, ignoring empties.

  /** The characters of a group; Python's set(...) of a list. */
  function Elements(s: seq<char>): set<char> { set x | x in s }

  /** The non-empty characters of a group, in order (check_ok's
      non_zero_values). */
  function NonEmpty(s: seq<char>): (r: seq<char>)
    ensures forall x :: x in r <==> x in s && !IsEmpty(x)
  {
    if s == [] then [] else if IsEmpty(s[0]) then NonEmpty(s[1..]) else [s[0]] + NonEmpty(s[1..])
  }

  /** check_ok's duplicate test on one group: fewer distinct non-empty
      characters than non-empty characters. That happens exactly when some
      filled character of the group occurs twice. */
  predicate HasRepeat(s: seq<char>)
    ensures HasRepeat(s) <==> !NoClash(s)
  {
    FewerElementsIffClash(s);
    |Elements(NonEmpty(s))| < |NonEmpty(s)|
  }

  predicate Distinct(s: seq<char>) {
    forall i, j :: 0 <= i < j < |s| ==> s[i] != s[j]
  }

  /** No filled character of s occurs a second time in s. */
  predicate NoClash(s: seq<char>) {
    forall i, j :: 0 <= i < |s| && 0 <= j < |s| && i != j && !IsEmpty(s[i]) ==> s[i] != s[j]
  }

  /** A sequence has at most as many distinct elements as entries, and
      exactly as many precisely when its entries are pairwise distinct. */
  lemma {:induction false} ElementsCount(s: seq<char>)
    ensures |Elements(s)| <= |s|
    ensures |Elements(s)| == |s| <==> Distinct(s)
  {
    if s != [] {
      var t := s[1..];
      ElementsCount(t);
      assert s == [s[0]] + t;
      assert Elements(s) == {s[0]} + Elements(t);
      ConsDistinct(s[0], t);
      if s[0] in t {
        assert Elements(s) == Elements(t);
      }
    }
  }

  /** Filtering out the empties leaves a repeat-free list exactly when no
      filled character of the group occurs twice. */
  lemma {:induction false} NonEmptyDistinct(s: seq<char>)
    ensures Distinct(NonEmpty(s)) <==> NoClash(s)
  {
    if s != [] {
      var t := s[1..];
      NonEmptyDistinct(t);
      assert NoClash(s) <==> (!IsEmpty(s[0]) ==> s[0] !in t) && NoClash(t) by {
        if (!IsEmpty(s[0]) ==> s[0] !in t) && NoClash(t) {
          forall i, j | 0 <= i < |s| && 0 <= j < |s| && i != j && !IsEmpty(s[i]) ensures s[i] != s[j] {
            if i == 0 {
              assert s[j] == t[j - 1];
            } else if j == 0 {
              assert s[i] == t[i - 1];
            } else {
              assert s[i] == t[i - 1] && s[j] == t[j - 1];
            }
          }
        }
        if NoClash(s) {
          forall i, j | 0 <= i < |t| && 0 <= j < |t| && i != j && !IsEmpty(t[i]) ensures t[i] != t[j] {
            assert t[i] == s[i + 1] && t[j] == s[j + 1];
          }
        }
      }
      if !IsEmpty(s[0]) {
        var r := NonEmpty(t);
        assert NonEmpty(s) == [s[0]] + r;
        ConsDistinct(s[0], r);
      }
    }
  }

  /** Prepending x keeps a list repeat-free exactly when x is new to it. */
  lemma ConsDistinct(x: char, r: seq<char>)
    ensures Distinct([x] + r) <==> x !in r && Distinct(r)
  {
    var u := [x] + r;
    if x in r {
      var k :| 0 <= k < |r| && r[k] == x;
      assert u[k + 1] == u[0];
    }
    if Distinct(u) {
      forall i, j | 0 <= i < j < |r| ensures r[i] != r[j] {
        assert r[i] == u[i + 1] && r[j] == u[j + 1];
      }
    }
    if x !in r && Distinct(r) {
      forall i, j | 0 <= i < j < |u| ensures u[i] != u[j] {
        assert u[j] == r[j - 1];
        if i > 0 { assert u[i] == r[i - 1]; }
      }
    }
  }

  /** Filtering out the empties loses a duplicate exactly when a filled
      character of the group is repeated. */
  lemma FewerElementsIffClash(s: seq<char>)
    ensures |Elements(NonEmpty(s))| < |NonEmpty(s)| <==> !NoClash(s)
  {
    ElementsCount(NonEmpty(s));
    NonEmptyDistinct(s);
  }

  // ---------------------------------------------------------------------
  // The validators.

  /** None of the groups gs holds a repeated non-empty character. */
  predicate GroupsOk(gs: seq<seq<char>>) {
    forall i :: 0 <= i < |gs| ==> !HasRepeat(gs[i])
  }

  /** Every group of gs, taken as a set, is exactly 1..9. */
  predicate GroupsComplete(gs: seq<seq<char>>) {
    forall i :: 0 <= i < |gs| ==> Elements(gs[i]) == Standard
  }

  /** Scanning one group further for check_ok: the prefix through group i
      passes exactly when the prefix before it does and group i does. */
  lemma ScanOkStep(gs: seq<seq<char>>, i: nat)
    requires i < |gs|
    ensures GroupsOk(gs[..i + 1]) <==> GroupsOk(gs[..i]) && !HasRepeat(gs[i])
  {
    assert gs[..i + 1] == gs[..i] + [gs[i]];
  }

  /** The same for check_complete. */
  lemma ScanCompleteStep(gs: seq<seq<char>>, i: nat)
    requires i < |gs|
    ensures GroupsComplete(gs[..i + 1]) <==> GroupsComplete(gs[..i]) && Elements(gs[i]) == Standard
  {
    assert gs[..i + 1] == gs[..i] + [gs[i]];
  }

  /** check_ok: no group of the board holds a repeated non-empty
      character; read cell by cell, no two peers clash. */
  predicate BoardOk(b: seq<char>)
    requires IsBoard(b)
    ensures BoardOk(b) <==> NoPeerClash(b)
  {
    GroupsNoClashIffNoPeerClash(b);
    GroupsOk(AllGroups(b))
  }

  /** check_complete: every group, taken as a set, is exactly 1..9; read
      cell by cell, the board is a solved grid. */
  predicate BoardComplete(b: seq<char>)
    requires IsBoard(b)
    ensures BoardComplete(b) <==> Solved(b)
  {
    GroupsCompleteIffSolved(b);
    GroupsComplete(AllGroups(b))
  }

  /** The cell-level reading of a consistent board: two distinct peers never
      hold the same filled character. */
  predicate NoPeerClash(b: seq<char>)
    requires IsBoard(b)
  {
    forall p, q :: 0 <= p < Cells && 0 <= q < Cells && p != q && Peer(p, q) && !IsEmpty(b[p]) ==> b[p] != b[q]
  }

  /** A solved grid: every cell a digit 1..9 and no two peers equal. */
  predicate Solved(b: seq<char>)
    requires IsBoard(b)
  {
    (forall c :: 0 <= c < Cells ==> b[c] in Standard) && NoPeerClash(b)
  }

  /** Two distinct peers sit at two distinct positions of a group they
      share, so a clash-free group keeps them apart. */
  lemma PeersApart(b: seq<char>, p: nat, q: nat)
    requires IsBoard(b) && p < Cells && q < Cells && p != q && Peer(p, q) && !IsEmpty(b[p])
    requires forall i :: 0 <= i < 27 ==> NoClash(AllGroups(b)[i])
    ensures b[p] != b[q]
  {
    var i := PeersShareGroup(p, q);
    GroupLayout(b, i);
    var gs := AllGroups(b)[i];
    var x, y := PosInGroup(i, p), PosInGroup(i, q);
    assert gs[x] == b[p] && gs[y] == b[q];
    assert NoClash(gs);
  }

  /** Two distinct positions of one group are two distinct peer cells. */
  lemma PositionsArePeers(i: nat, x: nat, y: nat)
    requires i < 27 && x < 9 && y < 9 && x != y
    ensures GroupCell(i, x) < Cells && GroupCell(i, y) < Cells
    ensures GroupCell(i, x) != GroupCell(i, y) && Peer(GroupCell(i, x), GroupCell(i, y))
  {
    var g := if i < 9 then i else if i < 18 then i - 9 else i - 18;
    GroupEntryIsCell(g, x);
    GroupEntryIsCell(g, y);
  }

  /** A board without peer clashes has clash-free groups. */
  lemma GroupApart(b: seq<char>, i: nat)
    requires IsBoard(b) && i < 27 && NoPeerClash(b)
    ensures NoClash(AllGroups(b)[i])
  {
    GroupLayout(b, i);
    var gs := AllGroups(b)[i];
    forall x, y | 0 <= x < |gs| && 0 <= y < |gs| && x != y && !IsEmpty(gs[x])
      ensures gs[x] != gs[y]
    {
      PositionsArePeers(i, x, y);
    }
  }

  /** Every group is clash-free exactly when no two peers clash. */
  lemma GroupsNoClashIffNoPeerClash(b: seq<char>)
    requires IsBoard(b)
    ensures (forall i :: 0 <= i < 27 ==> NoClash(AllGroups(b)[i])) <==> NoPeerClash(b)
  {
    if forall i :: 0 <= i < 27 ==> NoClash(AllGroups(b)[i]) {
      forall p, q | 0 <= p < Cells && 0 <= q < Cells && p != q && Peer(p, q) && !IsEmpty(b[p])
        ensures b[p] != b[q]
      {
        PeersApart(b, p, q);
      }
    }
    if NoPeerClash(b) {
      forall i | 0 <= i < 27 ensures NoClash(AllGroups(b)[i]) {
        GroupApart(b, i);
      }
    }
  }

  lemma SubsetSameSize(a: set<char>, b: set<char>)
    requires a <= b && |a| == |b|
    ensures a == b
  {
    assert b == a + (b - a);
    assert a * (b - a) == {};
  }

  /** A group equal to 1..9 as a set has nine distinct entries, all digits. */
  lemma FullGroup(s: seq<char>)
    requires |s| == 9 && Elements(s) == Standard
    ensures Distinct(s) && NoClash(s)
    ensures forall p :: 0 <= p < 9 ==> s[p] in Standard
  {
    StandardDigits();
    ElementsCount(s);
  }

  /** Nine distinct digits make up the whole of 1..9. */
  lemma DigitsFillGroup(s: seq<char>)
    requires |s| == 9 && NoClash(s)
    requires forall p :: 0 <= p < 9 ==> s[p] in Standard
    ensures Elements(s) == Standard
  {
    StandardDigits();
    assert Distinct(s) by {
      forall x, y | 0 <= x < y < 9 ensures s[x] != s[y] {
        assert s[x] in Standard;
      }
    }
    ElementsCount(s);
    SubsetSameSize(Elements(s), Standard);
  }

  /** Every group is exactly 1..9 as a set precisely when the board is a
      solved grid. */
  lemma GroupsCompleteIffSolved(b: seq<char>)
    requires IsBoard(b)
    ensures GroupsComplete(AllGroups(b)) <==> Solved(b)
  {
    if GroupsComplete(AllGroups(b)) {
      forall i | 0 <= i < 27 ensures NoClash(AllGroups(b)[i]) {
        FullGroup(AllGroups(b)[i]);
      }
      forall c | 0 <= c < Cells ensures b[c] in Standard {
        ParserPlacesCell(b, c);
        FullGroup(AllGroups(b)[Row(c)]);
        assert AllGroups(b)[Row(c)][Col(c)] == b[c];
      }
      GroupsNoClashIffNoPeerClash(b);
    }
    if Solved(b) {
      GroupsNoClashIffNoPeerClash(b);
      forall i | 0 <= i < 27 ensures Elements(AllGroups(b)[i]) == Standard {
        GroupLayout(b, i);
        DigitsFillGroup(AllGroups(b)[i]);
      }
    }
  }

  /** A board check_complete accepts is also accepted by check_ok. */
  lemma CompleteIsOk(b: seq<char>)
    requires IsBoard(b) && BoardComplete(b)
    ensures BoardOk(b)
  {
    assert Solved(b);
  }
}
