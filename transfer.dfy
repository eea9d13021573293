/** The two board-text conversions of the interface: reading a board typed
    or pasted into the import field, and writing the current board into the
    export field. Both are character mappings; the widgets around them are
    not part of this model. */
module Transfer {
  import opened Grid

  /** A decimal digit character, '0' to '9'. */
  predicate IsDigit(ch: char) { '0' <= ch <= '9' }

  predicate AllDigits(s: seq<char>) {
    forall i :: 0 <= i < |s| ==> IsDigit(s[i])
  }

  /** import_board's treatment of one character: a digit is kept, anything
      else stands for an empty cell. */
  function ImportChar(ch: char): (r: char)
    ensures IsDigit(r)
    ensures IsDigit(ch) ==> r == ch
    ensures !IsDigit(ch) ==> r == '0'
  {
    if IsDigit(ch) then ch else '0'
  }

  /** import_board: each character mapped as above, then '0' appended up to
      81 characters. A longer text is kept at its full length. */
  function ImportBoard(s: seq<char>): (r: seq<char>)
    ensures |r| == if |s| < Cells then Cells else |s|
    ensures AllDigits(r)
    ensures forall i :: 0 <= i < |s| ==> r[i] == ImportChar(s[i])
    ensures forall i :: |s| <= i < |r| ==> r[i] == '0'
  {
    var mapped := seq(|s|, i requires 0 <= i < |s| => ImportChar(s[i]));
    var padding := if |s| < Cells then Cells - |s| else 0;
    mapped + seq(padding, _ => '0')
  }

  /** export_board: every marker '_' becomes '0'; every other character is
      copied. */
  function ExportBoard(b: seq<char>): (r: seq<char>)
    ensures |r| == |b|
    ensures '_' !in r
    ensures forall i :: 0 <= i < |b| && b[i] != '_' ==> r[i] == b[i]
    ensures forall i :: 0 <= i < |b| && b[i] == '_' ==> r[i] == '0'
  {
    seq(|b|, i requires 0 <= i < |b| => if b[i] == '_' then '0' else b[i])
  }

  /** A text of at most 81 characters imports as a board. */
  lemma ImportShortIsBoard(s: seq<char>)
    requires |s| <= Cells
    ensures IsBoard(ImportBoard(s))
  {
  }

  /** Importing a board that is already 81 digits changes nothing. */
  lemma ImportDigitBoard(b: seq<char>)
    requires IsBoard(b) && AllDigits(b)
    ensures ImportBoard(b) == b
  {
    var r := ImportBoard(b);
    assert forall i :: 0 <= i < |b| ==> r[i] == b[i];
  }

  /** Importing is idempotent: an imported text is all digits and at least
      81 long, so importing it again gives it back. */
  lemma ImportIdempotent(s: seq<char>)
    ensures ImportBoard(ImportBoard(s)) == ImportBoard(s)
  {
    var r := ImportBoard(s);
    var rr := ImportBoard(r);
    assert |rr| == |r|;
    forall i | 0 <= i < |r| ensures rr[i] == r[i] {
      assert IsDigit(r[i]);
    }
  }

  /** Exporting a freshly imported board returns it unchanged: an imported
      board holds no marker. */
  lemma ExportAfterImport(s: seq<char>)
    ensures ExportBoard(ImportBoard(s)) == ImportBoard(s)
  {
    var r := ImportBoard(s);
    var e := ExportBoard(r);
    forall i | 0 <= i < |r| ensures e[i] == r[i] {
      assert IsDigit(r[i]);
    }
  }

  /** A board of digits and markers, exported and imported again, comes
      back as its export: the round trip loses only the markers. */
  lemma ImportAfterExport(b: seq<char>)
    requires IsBoard(b)
    requires forall i :: 0 <= i < |b| ==> IsDigit(b[i]) || b[i] == '_'
    ensures AllDigits(ExportBoard(b))
    ensures ImportBoard(ExportBoard(b)) == ExportBoard(b)
  {
    var e := ExportBoard(b);
    forall i | 0 <= i < |e| ensures IsDigit(e[i]) {
      assert IsDigit(b[i]) || b[i] == '_';
    }
    ImportDigitBoard(e);
  }
}
