/**
 * The shadow buffer behind a password field (client/systems_components.py).
 *
 * The screen shows asterisks; this matrix of character codes follows the edits.
 */
module EditBuffer {
  import opened Text

  const BLANK := 0x20

  /** A row of the buffer, and the rows from top to bottom. */
  type Row = seq<int>
  type Rows = seq<Row>

  function Blanks(n: nat): (r: Row)
    ensures |r| == n && forall i :: 0 <= i < n ==> r[i] == BLANK
  {
    seq(n, _ => BLANK)
  }

  // ----- edits as functions -----

  /** Row y goes and a blank one comes in at the bottom. */
  function DeletedLine(rows: Rows, y: nat, width: nat): Rows
    requires y < |rows|
  {
    rows[..y] + rows[y + 1..] + [Blanks(width)]
  }

  /** A blank row comes in at y and the bottom one falls out. */
  function InsertedLine(rows: Rows, y: nat, width: nat): Rows
    requires y < |rows|
  {
    rows[..y] + [Blanks(width)] + rows[y..|rows| - 1]
  }

  function DeletedChar(row: Row, x: nat): Row
    requires x < |row|
  {
    row[..x] + row[x + 1..] + [BLANK]
  }

  function ClearedFrom(row: Row, x: nat): Row
    requires x <= |row|
  {
    row[..x] + Blanks(|row| - x)
  }

  /** Inserting a line and deleting it again loses the bottom row and nothing else. */
  lemma InsertThenDelete(rows: Rows, y: nat, width: nat)
    requires y < |rows|
    ensures DeletedLine(InsertedLine(rows, y, width), y, width) == rows[|rows| - 1 := Blanks(width)]
  {
    var r := InsertedLine(rows, y, width);
    assert r[..y] == rows[..y] && r[y + 1..] == rows[y..|rows| - 1];
  }

  /** Deleting a line and inserting one there loses row y and nothing else. */
  lemma DeleteThenInsert(rows: Rows, y: nat, width: nat)
    requires y < |rows|
    ensures InsertedLine(DeletedLine(rows, y, width), y, width) == rows[y := Blanks(width)]
  {
    var r := DeletedLine(rows, y, width);
    assert r[..y] == rows[..y] && r[y..|rows| - 1] == rows[y + 1..];
  }

  /** Each of the two pairs gives the buffer back exactly when the lost row was blank. */
  lemma LineEditsUndoExactly(rows: Rows, y: nat, width: nat)
    requires y < |rows|
    ensures DeletedLine(InsertedLine(rows, y, width), y, width) == rows <==> rows[|rows| - 1] == Blanks(width)
    ensures InsertedLine(DeletedLine(rows, y, width), y, width) == rows <==> rows[y] == Blanks(width)
  {
    InsertThenDelete(rows, y, width);
    DeleteThenInsert(rows, y, width);
  }

  /** The rows one by one after either edit. */
  lemma LineEditRows(rows: Rows, y: nat, width: nat, i: nat)
    requires y < |rows| && i < |rows|
    ensures |DeletedLine(rows, y, width)| == |InsertedLine(rows, y, width)| == |rows|
    ensures DeletedLine(rows, y, width)[i]
            == if i < y then rows[i] else if i + 1 < |rows| then rows[i + 1] else Blanks(width)
    ensures InsertedLine(rows, y, width)[i]
            == if i < y then rows[i] else if i == y then Blanks(width) else rows[i - 1]
  {
  }

  /** The cells one by one after a deleted character and after a cleared end of the row. */
  lemma CharEditCells(row: Row, x: nat, i: nat)
    requires x < |row| && i < |row|
    ensures |DeletedChar(row, x)| == |ClearedFrom(row, x)| == |row|
    ensures DeletedChar(row, x)[i] == if i < x then row[i] else if i + 1 < |row| then row[i + 1] else 0x20
    ensures ClearedFrom(row, x)[i] == if i < x then row[i] else 0x20
  {
  }

  /** While a line is deleted: the rows above `my` have moved up. */
  function MovedUp(rows: Rows, y: nat, my: nat, width: nat): (r: Rows)
    requires y <= my < |rows|
    ensures |r| == |rows|
  {
    rows[..y] + rows[y + 1..my + 1] + [if my == y then Blanks(width) else rows[my]] + rows[my + 1..]
  }

  lemma MoveUp(rows: Rows, y: nat, my: nat, width: nat)
    requires y <= my < |rows| - 1
    ensures var r := MovedUp(rows, y, my, width);
            r[my := r[my + 1]] == MovedUp(rows, y, my + 1, width)
  {
    assert rows[y + 1..my + 2] == rows[y + 1..my + 1] + [rows[my + 1]];
    assert rows[my + 1..] == [rows[my + 1]] + rows[my + 2..];
  }

  lemma MovedUpEnds(rows: Rows, y: nat, width: nat)
    requires y < |rows|
    ensures rows[y := Blanks(width)] == MovedUp(rows, y, y, width)
    ensures MovedUp(rows, y, |rows| - 1, width)[|rows| - 1 := Blanks(width)] == DeletedLine(rows, y, width)
  {
  }

  lemma ClearedWhole(row: Row)
    ensures ClearedFrom(row, 0) == Blanks(|row|)
  {
  }

  /** While a line is inserted: the rows below `my` have moved down. */
  function MovedDown(rows: Rows, my: nat): (r: Rows)
    requires my < |rows|
    ensures |r| == |rows|
  {
    rows[..my + 1] + rows[my..|rows| - 1]
  }

  lemma MovedDownEnds(rows: Rows, y: nat, width: nat)
    requires y < |rows|
    ensures MovedDown(rows, |rows| - 1) == rows
    ensures MovedDown(rows, y)[y := Blanks(width)] == InsertedLine(rows, y, width)
  {
  }

  lemma MoveDown(rows: Rows, my: nat)
    requires my < |rows| - 1
    ensures var r := MovedDown(rows, my + 1);
            r[my + 1 := r[my]] == MovedDown(rows, my)
  {
    assert rows[my..|rows| - 1] == [rows[my]] + rows[my + 1..|rows| - 1];
  }

  // ----- gathering -----

  /** The length of a row without its trailing blanks. */
  function Extent(row: Row): (n: nat)
    ensures n <= |row|
    ensures forall i :: n <= i < |row| ==> row[i] == BLANK
    ensures n > 0 ==> row[n - 1] != BLANK
  {
    if row == [] then 0 else if row[|row| - 1] != BLANK then |row| else Extent(row[..|row| - 1])
  }

  /** EOL_fake_win: where the row's text ends, but never beyond the last column. */
  function EndOfLine(row: Row): nat
    requires row != []
  {
    if Extent(row) == |row| then |row| - 1 else Extent(row)
  }

  /** chr(code % 256) */
  function Char(code: int): char {
    (code % 256) as char
  }

  /** The attributes of a cell, in the bits above, do not show. */
  lemma AttributesDropped(c: char, attributes: nat)
    requires c as int < 256
    ensures Char(c as int + 256 * attributes) == c
  {
    assert (c as int + 256 * attributes) % 256 == c as int;
  }

  function Chars(codes: seq<int>): (s: string)
    ensures |s| == |codes| && forall i :: 0 <= i < |codes| ==> s[i] == Char(codes[i])
  {
    seq(|codes|, i requires 0 <= i < |codes| => Char(codes[i]))
  }

  /** What one row adds to the gathered text. */
  function RowText(row: Row): string
    requires row != []
  {
    var last := EndOfLine(row);
    if last > 0 then Chars(row[..last + 1]) + "\n" else ""
  }

  function GatheredRows(rows: Rows): string
    requires forall i :: 0 <= i < |rows| ==> rows[i] != []
  {
    if rows == [] then "" else GatheredRows(rows[..|rows| - 1]) + RowText(rows[|rows| - 1])
  }

  lemma GatheredNext(rows: Rows, y: nat)
    requires y < |rows| && forall i :: 0 <= i < |rows| ==> rows[i] != []
    ensures GatheredRows(rows[..y + 1]) == GatheredRows(rows[..y]) + RowText(rows[y])
  {
    assert rows[..y + 1][..y] == rows[..y];
  }

  /** s[:-1] */
  function DropLast(s: string): string {
    if s == "" then "" else s[..|s| - 1]
  }

  function Gathered(rows: Rows): string
    requires forall i :: 0 <= i < |rows| ==> rows[i] != []
  {
    if |rows| == 1 then DropLast(GatheredRows(rows)) else GatheredRows(rows)
  }

  // ----- typing into a one-row field -----

  predicate Printable(s: string) {
    forall i :: 0 <= i < |s| ==> 0x20 as char <= s[i] <= 0x7e as char
  }

  function Codes(s: string): (r: Row)
    ensures |r| == |s| && forall i :: 0 <= i < |s| ==> r[i] == s[i] as int
  {
    seq(|s|, i requires 0 <= i < |s| => s[i] as int)
  }

  /**
   * The row after typing s from the left edge of a blank row. The cursor advances with
   * each key and stays in the last column, where each further key replaces the one before.
   */
  function Typed(s: string, width: nat): Row
    requires width > 0
  {
    if |s| <= width then Codes(s) + Blanks(width - |s|)
    else Codes(s[..width - 1]) + [s[|s| - 1] as int]
  }

  /** The column of the cursor after n keys. */
  function Column(n: nat, width: nat): nat
    requires width > 0
  {
    if n < width then n else width - 1
  }

  /** Typing one key overwrites the cell at the cursor. */
  lemma TypedKeyByKey(s: string, c: char, width: nat)
    requires width > 0
    ensures |Typed(s, width)| == width
    ensures Typed(s, width)[Column(|s|, width) := c as int] == Typed(s + [c], width)
  {
    if |s| >= width {
      assert (s + [c])[..width - 1] == s[..width - 1];
      assert |s| == width ==> Codes(s)[..width - 1] == Codes(s[..width - 1]);
    }
  }

  lemma ExtentOfTyped(s: string, width: nat)
    requires 0 < width && |s| <= width && Printable(s) && (s != "" ==> s[|s| - 1] != ' ')
    ensures Extent(Typed(s, width)) == |s|
  {
    var row := Typed(s, width);
    assert s != "" ==> row[|s| - 1] == s[|s| - 1] as int;
  }

  lemma CharsOfCodes(s: string)
    requires Printable(s)
    ensures Chars(Codes(s)) == s
  {
  }

  /** The text of a row up to its end, which is never beyond the last column. */
  function RowBack(row: Row): string
    requires row != []
  {
    Chars(row[..EndOfLine(row)])
  }

  lemma GatheredOne(row: Row)
    requires row != []
    ensures GatheredRows([row]) == RowText(row)
  {
    var none: Rows := [];
    assert [row][..0] == none && GatheredRows(none) == "";
    assert "" + RowText(row) == RowText(row);
  }

  lemma DroppedLast(s: string, c: char)
    ensures DropLast(s + [c]) == s
  {
  }

  lemma CharsButLast(row: Row, n: nat)
    requires n < |row|
    ensures Chars(row[..n + 1]) == Chars(row[..n]) + [Char(row[n])]
  {
  }

  /** What a one-row field returns: the gathered text without its last character. */
  lemma GatheredRow(row: Row)
    requires row != []
    ensures DropLast(Gathered([row])) == RowBack(row)
  {
    var last := EndOfLine(row);
    GatheredOne(row);
    if last > 0 {
      DroppedLast(Chars(row[..last + 1]), '\n');
      CharsButLast(row, last);
      DroppedLast(Chars(row[..last]), Char(row[last]));
    }
  }

  /** What comes back of a text typed into a blank row. */
  function ReadBack(s: string, width: nat): string
    requires width > 0
  {
    TypedWidth(s, width);
    RowBack(Typed(s, width))
  }

  lemma TypedWidth(s: string, width: nat)
    requires width > 0
    ensures |Typed(s, width)| == width
  {
  }

  /** At most the row without its last column comes back. */
  lemma ReadBackLength(s: string, width: nat)
    requires width > 0
    ensures |ReadBack(s, width)| < width
  {
  }

  /**
   * The password read back from the field is what was typed, exactly when it leaves
   * the last column free and does not end in a space.
   */
  lemma TypedComesBackExactly(s: string, width: nat)
    requires width > 0 && Printable(s)
    ensures ReadBack(s, width) == s <==> |s| < width && (s != "" ==> s[|s| - 1] != ' ')
  {
    ReadBackLength(s, width);
    if |s| < width {
      var row := Typed(s, width);
      if s != "" && s[|s| - 1] == ' ' {
        TrailingSpaceIsLost(s, width);
        assert |ReadBack(s, width)| < |s|;
      } else {
        ExtentOfTyped(s, width);
        CharsOfCodes(s);
        assert row[..|s|] == Codes(s);
      }
    }
  }

  /**
   * Backspace takes back the key typed last, while the cursor has a column to itself;
   * in the last column, where the cursor stays, it takes the key before that one.
   */
  lemma BackspaceErases(s: string, c: char, width: nat)
    requires width > 1
    ensures |Typed(s + [c], width)| == width
    ensures DeletedChar(Typed(s + [c], width), Column(|s| + 1, width) - 1)
            == if |s| + 1 < width then Typed(s, width) else Typed(s[..width - 2] + [c], width)
  {
    TypedWidth(s + [c], width);
    var row, x := Typed(s + [c], width), Column(|s| + 1, width) - 1;
    var back := if |s| + 1 < width then s else s[..width - 2] + [c];
    TypedWidth(back, width);
    TypedCells(s + [c], width);
    TypedCells(back, width);
    forall i | 0 <= i < width
      ensures DeletedChar(row, x)[i] == Typed(back, width)[i]
    {
      CharEditCells(row, x, i);
    }
  }

  /** Clearing from a column on leaves what is typed in front of it. */
  lemma ClearedKeepsFront(s: string, x: nat, width: nat)
    requires x <= |s| < width
    ensures |Typed(s, width)| == width && ClearedFrom(Typed(s, width), x) == Typed(s[..x], width)
  {
  }

  /** A typed text that ends in a letter adds itself, the blank behind it, and a line break. */
  lemma TypedRowText(s: string, width: nat)
    requires 0 < |s| < width && Printable(s) && s[|s| - 1] != ' '
    ensures Typed(s, width) != [] && RowText(Typed(s, width)) == s + " \n"
  {
    var row := Typed(s, width);
    ExtentOfTyped(s, width);
    TypedCells(s, width);
    assert forall i :: 0 <= i < |s| ==> Char(row[i]) == s[i];
  }

  lemma BlankRowText(width: nat)
    requires width > 0
    ensures RowText(Blanks(width)) == ""
  {
    assert Extent(Blanks(width)) == 0;
  }

  /** Two rows in which something is typed give both texts, one line each. */
  lemma TwoRowsGathered(s: string, t: string, width: nat)
    requires 0 < |s| < width && Printable(s) && s[|s| - 1] != ' '
    requires 0 < |t| < width && Printable(t) && t[|t| - 1] != ' '
    ensures Typed(s, width) != [] && Typed(t, width) != []
    ensures Gathered([Typed(s, width), Typed(t, width)]) == s + " \n" + (t + " \n")
  {
    TypedRowText(s, width);
    TypedRowText(t, width);
    TwoRows(Typed(s, width), Typed(t, width));
  }

  lemma TwoRows(first: Row, second: Row)
    requires first != [] && second != []
    ensures GatheredRows([first, second]) == RowText(first) + RowText(second)
  {
    assert [first, second][..1] == [first];
    GatheredOne(first);
  }

  // ----- typing into a field that shows asterisks already -----

  /** The row after typing s from column x on. */
  function TypedOn(row: Row, x: nat, s: string): (r: Row)
    requires x < |row|
    ensures |r| == |row|
    decreases |s|
  {
    if s == "" then row else TypedOn(row[x := s[0] as int], Column(x + 1, |row|), s[1..])
  }

  /** Typing on is typing it all, where the cursor stands behind what was typed. */
  lemma {:induction false} TypedOnAppends(t: string, s: string, width: nat)
    requires width > 0
    ensures |Typed(t, width)| == width
    ensures TypedOn(Typed(t, width), Column(|t|, width), s) == Typed(t + s, width)
    decreases |s|
  {
    TypedWidth(t, width);
    if s == "" {
      assert t + s == t;
    } else {
      var t' := t + [s[0]];
      TypedKeyByKey(t, s[0], width);
      TypedOnAppends(t', s[1..], width);
      assert t' + s[1..] == t + s;
    }
  }

  function Stars(n: nat): (s: string)
    ensures |s| == n && forall i :: 0 <= i < n ==> s[i] == '*'
  {
    seq(n, _ => '*')
  }

  lemma TypedCells(s: string, width: nat)
    requires width > 0
    ensures |Typed(s, width)| == width
    ensures forall i :: 0 <= i < width - 1 ==> Typed(s, width)[i] == if i < |s| then s[i] as int else BLANK
    ensures Typed(s, width)[width - 1] == if width <= |s| then s[|s| - 1] as int else BLANK
  {
  }

  lemma StarsRow(n: nat, width: nat)
    requires width > 0
    ensures |Typed(Stars(n), width)| == width
    ensures EndOfLine(Typed(Stars(n), width)) == Column(n, width)
  {
    TypedCells(Stars(n), width);
    StarsEnd(Typed(Stars(n), width), n);
  }

  lemma StarsEnd(row: Row, n: nat)
    requires row != [] && forall i :: 0 <= i < |row| ==> row[i] == if i < n then '*' as int else BLANK
    ensures EndOfLine(row) == Column(n, |row|)
  {
    ExtentIs(row, if n < |row| then n else |row|);
  }

  lemma StarsBack(n: nat, width: nat)
    requires width > 0
    ensures ReadBack(Stars(n), width) == Stars(Column(n, width))
  {
    TypedCells(Stars(n), width);
    RowOfStars(Typed(Stars(n), width), n);
  }

  lemma RowOfStars(row: Row, n: nat)
    requires row != [] && forall i :: 0 <= i < |row| ==> row[i] == if i < n then '*' as int else BLANK
    ensures RowBack(row) == Stars(Column(n, |row|))
  {
    StarsEnd(row, n);
    assert forall i :: 0 <= i < Column(n, |row|) ==> Char(row[i]) == '*';
  }

  /** A text that starts what n asterisks before it and itself make is all asterisks. */
  lemma StartsBehindStars(n: nat, keys: string)
    requires n > 0 && keys <= Stars(n) + keys
    ensures keys == Stars(|keys|) && Stars(n) + keys == Stars(n + |keys|)
  {
    var s := Stars(n) + keys;
    for i := 0 to |keys|
      invariant forall j :: 0 <= j < i ==> keys[j] == '*'
    {
      assert keys[i] == s[i] == if i < n then '*' else keys[i - n];
    }
  }

  /** What is read back is the start of what was typed, one column short of the row at most. */
  lemma ReadBackStarts(s: string, width: nat)
    requires width > 0 && Printable(s)
    ensures ReadBack(s, width) <= s && |ReadBack(s, width)| < width
  {
    TypedCells(s, width);
    RowStarts(Typed(s, width), s);
  }

  lemma RowStarts(row: Row, s: string)
    requires row != [] && Printable(s) && forall i :: |s| <= i < |row| ==> row[i] == BLANK
    requires forall i :: 0 <= i < |row| - 1 && i < |s| ==> row[i] == s[i] as int
    ensures RowBack(row) <= s && |RowBack(row)| < |row|
  {
    EndWithin(row, |s|);
    assert forall i :: 0 <= i < EndOfLine(row) ==> Char(row[i]) == s[i];
  }

  lemma EndWithin(row: Row, n: nat)
    requires row != [] && forall i :: n <= i < |row| ==> row[i] == BLANK
    ensures EndOfLine(row) <= n
  {
  }

  lemma OneTextOnly(n: nat, keys: string, back: string, width: nat)
    requires 0 < n < width && back <= Stars(n) + keys
    requires Stars(n) + keys == Stars(n + |keys|) ==> back == Stars(Column(n + |keys|, width))
    ensures back == keys <==> keys == Stars(width - 1)
  {
    if keys == Stars(width - 1) {
      assert Stars(n) + keys == Stars(n + |keys|);
    }
    if back == keys {
      StartsBehindStars(n, keys);
    }
  }

  /** Typed behind n asterisks, only one text comes back. */
  lemma BackBehindStars(n: nat, keys: string, width: nat)
    requires 0 < n < width && Printable(keys)
    ensures ReadBack(Stars(n) + keys, width) == keys <==> keys == Stars(width - 1)
  {
    BackOfStars(n, keys, width);
    OneTextOnly(n, keys, ReadBack(Stars(n) + keys, width), width);
  }

  lemma BackOfStars(n: nat, keys: string, width: nat)
    requires width > 0 && Printable(keys)
    ensures ReadBack(Stars(n) + keys, width) <= Stars(n) + keys
    ensures Stars(n) + keys == Stars(n + |keys|) ==>
              ReadBack(Stars(n) + keys, width) == Stars(Column(n + |keys|, width))
  {
    ReadBackStarts(Stars(n) + keys, width);
    StarsBack(n + |keys|, width);
  }

  /** Which texts come back from a field that shows n asterisks. */
  predicate ComesBack(n: nat, keys: string, width: nat)
    requires width > 0
  {
    if n == 0 then |keys| < width && (keys != "" ==> keys[|keys| - 1] != ' ') else keys == Stars(width - 1)
  }

  /**
   * A second visit to a password field reads the asterisks back with what is typed, so
   * that the password comes back only into an empty field, or if it is itself one
   * asterisk less than the field is wide.
   */
  lemma PasswordComesBackExactly(n: nat, keys: string, width: nat)
    requires n < width && Printable(keys)
    ensures ReadBack(Stars(n) + keys, width) == keys <==> ComesBack(n, keys, width)
  {
    if n == 0 {
      assert Stars(0) + keys == keys;
      TypedComesBackExactly(keys, width);
    } else {
      BackBehindStars(n, keys, width);
    }
  }

  /** A field that shows a password of two letters: the same two typed again come back as four. */
  lemma SecondVisitReadsAsterisks()
    ensures ReadBack(Stars(2) + "ab", 10) != "ab"
  {
    PasswordComesBackExactly(2, "ab", 10);
  }

  /** A password that fills the row loses its last character. */
  lemma FullRowIsCut()
    ensures Printable("ab") && ReadBack("ab", 2) != "ab"
  {
    ReadBackLength("ab", 2);
  }

  /** A text in the bottom row does not survive a line inserted and deleted above it. */
  lemma BottomRowIsLost()
    ensures var rows := [[BLANK], ['a' as int]];
            DeletedLine(InsertedLine(rows, 0, 1), 0, 1) != rows
  {
    var rows := [[BLANK], ['a' as int]];
    LineEditsUndoExactly(rows, 0, 1);
    assert rows[1][0] != Blanks(1)[0];
  }

  lemma TrailingSpaceIsLost(s: string, width: nat)
    requires 0 < |s| <= width && Printable(s) && s[|s| - 1] == ' '
    ensures EndOfLine(Typed(s, width)) < |s|
  {
    var row := Typed(s, width);
    assert row[|s| - 1] == BLANK;
  }

  // ----- the buffer in place -----

  class FakeWindow {
    const cells: array2<int>

    constructor (rows: nat, columns: nat)
      requires rows > 0 && columns > 0
      ensures cells.Length0 == rows && cells.Length1 == columns && fresh(cells)
      ensures Value() == seq(rows, _ => Blanks(columns))
    {
      cells := new int[rows, columns]((i, j) => BLANK);
      new;
      assert forall i :: 0 <= i < rows ==> RowAt(i) == Blanks(columns);
    }

    ghost function RowAt(i: nat): (r: Row)
      requires i < cells.Length0
      reads cells
      ensures |r| == cells.Length1 && forall j :: 0 <= j < cells.Length1 ==> r[j] == cells[i, j]
    {
      seq(cells.Length1, j requires 0 <= j < cells.Length1 reads cells => cells[i, j])
    }

    ghost function Value(): (rows: Rows)
      reads cells
      ensures |rows| == cells.Length0 && forall i :: 0 <= i < cells.Length0 ==> rows[i] == RowAt(i)
    {
      seq(cells.Length0, i requires 0 <= i < cells.Length0 reads cells => RowAt(i))
    }

    predicate OnScreen(y: int, x: int) {
      0 <= y < cells.Length0 && 0 <= x < cells.Length1
    }

    /** __delch_fake_win */
    method DeleteChar(y: int, x: int)
      modifies cells
      ensures Value() == if OnScreen(y, x) then old(Value())[y := DeletedChar(old(Value())[y], x)] else old(Value())
    {
      if OnScreen(y, x) {
        var maxx := cells.Length1 - 1;
        for i := x to maxx
          invariant forall a, b :: 0 <= a < cells.Length0 && 0 <= b < cells.Length1 ==>
                      cells[a, b] == if a == y && x <= b < i then old(cells[a, b + 1]) else old(cells[a, b])
        {
          cells[y, i] := cells[y, i + 1];
        }
        cells[y, maxx] := BLANK;
        assert RowAt(y) == DeletedChar(old(RowAt(y)), x);
        assert forall a :: 0 <= a < cells.Length0 && a != y ==> RowAt(a) == old(RowAt(a));
      }
    }

    /** __EOL_fake_win; None stands for the missing return off the screen. */
    method Eol(y: int) returns (last: Option<nat>)
      requires cells.Length1 > 0
      ensures last == if 0 <= y < cells.Length0 then Some(EndOfLine(Value()[y])) else None
    {
      if !(0 <= y < cells.Length0) {
        return None;
      }
      var x := cells.Length1 - 1;
      while x >= 0 && cells[y, x] == BLANK
        invariant -1 <= x < cells.Length1
        invariant forall j :: x < j < cells.Length1 ==> cells[y, j] == BLANK
      {
        x := x - 1;
      }
      ExtentIs(RowAt(y), x + 1);
      return Some(if x + 1 > cells.Length1 - 1 then cells.Length1 - 1 else x + 1);
    }

    /** __clearln_fake_win */
    method ClearLine(y: int, x: int)
      modifies cells
      ensures Value() == if OnScreen(y, x) then old(Value())[y := ClearedFrom(old(Value())[y], x)] else old(Value())
    {
      if OnScreen(y, x) {
        for i := x to cells.Length1
          invariant forall a, b :: 0 <= a < cells.Length0 && 0 <= b < cells.Length1 ==>
                      cells[a, b] == if a == y && x <= b < i then BLANK else old(cells[a, b])
        {
          cells[y, i] := BLANK;
        }
        assert RowAt(y) == ClearedFrom(old(RowAt(y)), x);
        assert forall a :: 0 <= a < cells.Length0 && a != y ==> RowAt(a) == old(RowAt(a));
      }
    }

    /** One row is overwritten by another. */
    method CopyRow(from: nat, to: nat)
      requires from < cells.Length0 && to < cells.Length0 && from != to
      modifies cells
      ensures Value() == old(Value())[to := old(Value())[from]]
    {
      for mx := 0 to cells.Length1
        invariant forall a, b :: 0 <= a < cells.Length0 && 0 <= b < cells.Length1 ==>
                    cells[a, b] == if a == to && b < mx then old(cells[from, b]) else old(cells[a, b])
      {
        cells[to, mx] := cells[from, mx];
      }
      assert RowAt(to) == old(RowAt(from));
      assert forall a :: 0 <= a < cells.Length0 && a != to ==> RowAt(a) == old(RowAt(a));
    }

    /** __deleteln_fake_win */
    method DeleteLine(y: int, x: int)
      requires cells.Length1 > 0
      modifies cells
      ensures Value() == if OnScreen(y, x) then DeletedLine(old(Value()), y, cells.Length1) else old(Value())
    {
      if OnScreen(y, x) {
        ghost var rows := Value();
        var maxy := cells.Length0 - 1;
        ClearLine(y, 0);
        ClearedWhole(rows[y]);
        MovedUpEnds(rows, y, cells.Length1);
        for my := y to maxy
          invariant Value() == MovedUp(rows, y, my, cells.Length1)
        {
          MoveUp(rows, y, my, cells.Length1);
          CopyRow(my + 1, my);
        }
        ClearedWhole(Value()[maxy]);
        ClearLine(maxy, 0);
      }
    }

    /** __insertln_fake_win */
    method InsertLine(y: int)
      requires cells.Length1 > 0
      modifies cells
      ensures Value() == if 0 <= y < cells.Length0 then InsertedLine(old(Value()), y, cells.Length1) else old(Value())
    {
      if 0 <= y < cells.Length0 {
        ghost var rows := Value();
        MovedDownEnds(rows, y, cells.Length1);
        for my := cells.Length0 - 1 downto y
          invariant Value() == MovedDown(rows, my)
        {
          MoveDown(rows, my);
          CopyRow(my, my + 1);
        }
        ClearedWhole(Value()[y]);
        ClearLine(y, 0);
      }
    }

    /** A printable key in __pass_validator, with the cursor at (y, x). */
    method TypeChar(y: nat, x: nat, c: char)
      requires OnScreen(y, x)
      modifies cells
      ensures Value() == old(Value())[y := old(Value())[y][x := c as int]]
    {
      cells[y, x] := c as int;
      assert RowAt(y) == old(RowAt(y))[x := c as int];
      assert forall a :: 0 <= a < cells.Length0 && a != y ==> RowAt(a) == old(RowAt(a));
    }

    /** The inner loop of __gather_fake_win. */
    method GatherCells(y: nat, last: nat) returns (line: string)
      requires y < cells.Length0 && last < cells.Length1
      ensures line == Chars(Value()[y][..last + 1])
    {
      line := "";
      ghost var row := Value()[y];
      for x := 0 to last + 1
        invariant line == Chars(row[..x])
      {
        assert row[x] == cells[y, x];
        line := line + [Char(cells[y, x])];
      }
    }

    /** One turn of its outer loop. */
    method GatherRow(y: nat) returns (line: string)
      requires y < cells.Length0 && cells.Length1 > 0
      ensures Value()[y] != [] && line == RowText(Value()[y])
    {
      var last := Eol(y);
      if last.value > 0 {
        line := GatherCells(y, last.value);
        line := line + "\n";
      } else {
        line := "";
      }
    }

    /** __gather_fake_win */
    method Gather() returns (s: string)
      requires cells.Length1 > 0
      ensures s == Gathered(Value())
    {
      s := "";
      ghost var rows := Value();
      assert forall i :: 0 <= i < |rows| ==> rows[i] != [];
      for y := 0 to cells.Length0
        invariant s == GatheredRows(rows[..y])
      {
        var line := GatherRow(y);
        GatheredNext(rows, y);
        s := s + line;
      }
      assert rows[..|rows|] == rows;
      if cells.Length0 == 1 {
        s := DropLast(s);
      }
    }

    /** __fill_fake_win: the buffer takes what the screen shows; the cursor goes behind its first row. */
    method Fill(screen: Rows) returns (x: nat)
      requires |screen| == cells.Length0 > 0 && cells.Length1 > 0
      requires forall i :: 0 <= i < |screen| ==> |screen[i]| == cells.Length1
      modifies cells
      ensures Value() == screen && x == EndOfLine(screen[0])
    {
      for i := 0 to cells.Length0
        invariant forall a, b :: 0 <= a < i && 0 <= b < cells.Length1 ==> cells[a, b] == screen[a][b]
      {
        for j := 0 to cells.Length1
          invariant forall a, b :: 0 <= a < i && 0 <= b < cells.Length1 ==> cells[a, b] == screen[a][b]
          invariant forall b :: 0 <= b < j ==> cells[i, b] == screen[i][b]
        {
          cells[i, j] := screen[i][j];
        }
      }
      assert forall i :: 0 <= i < cells.Length0 ==> RowAt(i) == screen[i];
      assert Value() == screen;
      var last := Eol(0);
      return last.value;
    }

    /**
     * get_input of a one-row field, whatever the screen shows and the buffer holds: the
     * buffer is filled from the screen, and the text box passes each printable key to
     * the validator.
     */
    method GetInput(screen: Row, keys: string) returns (input: string)
      requires cells.Length0 == 1 && |screen| == cells.Length1 > 0 && Printable(keys)
      modifies cells
      ensures Value() == [TypedOn(screen, EndOfLine(screen), keys)]
      ensures input == RowBack(TypedOn(screen, EndOfLine(screen), keys))
      ensures forall n: nat :: n < |screen| && screen == Typed(Stars(n), |screen|)
                ==> (input == keys <==> ComesBack(n, keys, |screen|))
    {
      var width := cells.Length1;
      var start := Fill([screen]);
      var x := start;
      assert keys[0..] == keys;
      for i := 0 to |keys|
        invariant 0 <= x < width && |Value()| == 1 && |Value()[0]| == width
        invariant Value() == [Value()[0]]
        invariant TypedOn(Value()[0], x, keys[i..]) == TypedOn(screen, start, keys)
      {
        assert keys[i..][0] == keys[i] && keys[i..][1..] == keys[i + 1..];
        TypeChar(0, x, keys[i]);
        x := Column(x + 1, width);
      }
      assert Value() == [TypedOn(screen, start, keys)];
      input := Gather();
      input := DropLast(input);
      GatheredRow(TypedOn(screen, start, keys));
      forall n: nat | n < width && screen == Typed(Stars(n), width)
        ensures input == keys <==> ComesBack(n, keys, width)
      {
        StarsRow(n, width);
        TypedOnAppends(Stars(n), keys, width);
        PasswordComesBackExactly(n, keys, width);
      }
    }
  }

  lemma {:induction false} ExtentIs(row: Row, n: nat)
    requires n <= |row| && (forall i :: n <= i < |row| ==> row[i] == BLANK) && (n > 0 ==> row[n - 1] != BLANK)
    ensures Extent(row) == n
  {
    if n < |row| {
      ExtentIs(row[..|row| - 1], n);
    }
  }
}
