/**
 The column sizing pass over the saved sheet (pull.py:105-115): each column
 is made as wide as its longest cell text plus two, but never wider than 50.

 A cell's text is `str(cell.value)`; an empty cell holds `None`, whose text
 is the four characters `None`. The rendering of numbers and dates to text
 is not modelled: such cells are given as their text.
 */
module ColumnWidth {

  /** Added to the longest text of a column. */
  const Padding: nat := 2

  /** The widest a column is made. */
  const MaxWidth: nat := 50

  /** A cell as the sizing pass sees it. */
  datatype Cell = Empty | Text(text: string)

  /** `str(cell.value)`: a text cell shows its text, an empty cell the word
      `None`, which takes four characters of the column's width. */
  function Shown(c: Cell): (s: string)
    ensures c.Text? ==> s == c.text
    ensures c.Empty? ==> s == "None" && |s| == 4
  {
    match c
    case Empty => "None"
    case Text(s) => s
  }

  /** The length of the longest cell text, 0 for a column without cells. */
  function Longest(column: seq<Cell>): (n: nat)
    ensures forall i :: 0 <= i < |column| ==> |Shown(column[i])| <= n
    ensures n == 0 || exists i :: 0 <= i < |column| && |Shown(column[i])| == n
  {
    if |column| == 0 then 0
    else
      var rest := Longest(column[1..]);
      assert forall i :: 1 <= i < |column| ==> column[i] == column[1..][i - 1];
      if |Shown(column[0])| > rest then |Shown(column[0])| else rest
  }

  /** The width the pass gives a column: `min(max_length + 2, 50)`. It fits
      every cell's text plus the padding unless that exceeds the cap, it is
      never below the padding nor above the cap, and it is only as large as
      some cell makes it. */
  function Width(column: seq<Cell>): (w: nat)
    ensures Padding <= w <= MaxWidth
    ensures forall i :: 0 <= i < |column| ==> w >= |Shown(column[i])| + Padding || w == MaxWidth
    ensures w == Padding || w == MaxWidth || exists i :: 0 <= i < |column| && w == |Shown(column[i])| + Padding
    ensures w == MaxWidth ==> exists i :: 0 <= i < |column| && |Shown(column[i])| + Padding >= MaxWidth
  {
    var n := Longest(column);
    if n + Padding < MaxWidth then n + Padding else MaxWidth
  }

  /** The sizing loop over one column, cell by cell. */
  method ColumnWidthOf(column: seq<Cell>) returns (width: nat)
    ensures width == Width(column)
  {
    var maxLength := 0;
    var k := 0;
    while k < |column|
      invariant 0 <= k <= |column|
      invariant maxLength == Longest(column[..k])
    {
      assert column[..k + 1] == column[..k] + [column[k]];
      LongestSnoc(column[..k], column[k]);
      if |Shown(column[k])| > maxLength {
        maxLength := |Shown(column[k])|;
      }
      k := k + 1;
    }
    assert column[..k] == column;
    assert maxLength == Longest(column);
    width := if maxLength + Padding < MaxWidth then maxLength + Padding else MaxWidth;
  }

  /** The longest text after one more cell. */
  lemma {:induction false} LongestSnoc(column: seq<Cell>, c: Cell)
    ensures Longest(column + [c]) == if |Shown(c)| > Longest(column) then |Shown(c)| else Longest(column)
  {
    if |column| > 0 {
      assert (column + [c])[1..] == column[1..] + [c];
      LongestSnoc(column[1..], c);
    } else {
      assert column + [c] == [c];
    }
  }

  /** The sizing loop over every column of the sheet (pull.py:105). */
  method SheetWidths(columns: seq<seq<Cell>>) returns (widths: seq<nat>)
    ensures |widths| == |columns|
    ensures forall k :: 0 <= k < |columns| ==> widths[k] == Width(columns[k])
  {
    widths := [];
    var k := 0;
    while k < |columns|
      invariant 0 <= k <= |columns|
      invariant |widths| == k
      invariant forall j :: 0 <= j < k ==> widths[j] == Width(columns[j])
    {
      var w := ColumnWidthOf(columns[k]);
      widths := widths + [w];
      k := k + 1;
    }
  }

  /** Adding cells to a column never makes it narrower. */
  lemma WidthMonotone(column: seq<Cell>, more: seq<Cell>)
    ensures Width(column) <= Width(column + more)
  {
    var n := Longest(column);
    if n > 0 {
      var i :| 0 <= i < |column| && |Shown(column[i])| == n;
      assert (column + more)[i] == column[i];
    }
  }
}
