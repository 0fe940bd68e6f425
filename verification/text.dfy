/**
  The text form of a board in game_utils.py: `pretty_print_board` and its
  inverse `string_to_board`, with Python's `str.split` and `s[0::2]`.

  `string_to_board` fills the board top row first, so the parse of a printed
  board comes back upside down. StringToBoard keeps that; StringToBoardFixed
  is the corrected parse, which inverts the printer.
*/
module Text {
  import opened Wrappers
  import opened GameBoard

  /** The fourteen `=` of the board's top and bottom edges. */
  const Rule: string := "=============="
  const Border: string := "|" + Rule + "|\n"
  /** What `string_to_board` splits on: the end of one printed row and the start of the next. */
  const Separator: string := "|\n|"
  /** The column labels, each followed by a space. */
  const Labels: string := "0 1 2 3 4 5 6 "

  /** The three independent `if`s of the printer: a cell outside {0, 1, 2} prints nothing. */
  function CellText(e: int): (t: string)
    ensures 0 <= e <= 2 ==> |t| == 2 && t[1] == ' ' && t[0] != '|'
    ensures e == NoPlayer ==> t[0] == ' '
    ensures e == Player1 ==> t[0] == 'X'
    ensures e == Player2 ==> t[0] == 'O'
  {
    (if e == NoPlayer then "  " else "")
    + (if e == Player1 then "X " else "")
    + (if e == Player2 then "O " else "")
  }

  /** The cells of one row, left to right, as printed between the bars. */
  function RowText(row: seq<int>): string
  {
    if |row| == 0 then "" else CellText(row[0]) + RowText(row[1..])
  }

  /** `np.flipud(board)`: the top row first. */
  function FlipUD(b: Board): (f: Board)
    requires IsBoard(b)
    ensures IsBoard(f)
    ensures forall r :: 0 <= r < Rows ==> f[r] == b[Rows - 1 - r]
  {
    seq(Rows, r requires 0 <= r < Rows => b[Rows - 1 - r])
  }

  /** One line `|...|\n` per row, in the given order. */
  function RowsText(rows: seq<seq<int>>): string
  {
    if |rows| == 0 then "" else "|" + RowText(rows[0]) + "|\n" + RowsText(rows[1..])
  }

  /** The decimal digit of `d`, which is `str(d)` for 0 <= d < 10. */
  function Digit(d: int): char
    requires 0 <= d < 10
  {
    ('0' as int + d) as char
  }

  /** The column labels `str(c_i) + " "` for `c_i in range(n)`. */
  function ColumnLabels(n: nat): string
    requires n <= 10
  {
    if n == 0 then "" else ColumnLabels(n - 1) + [Digit(n - 1)] + " "
  }

  /** Everything the printer writes after the board rows. */
  const FooterText: string := Border + "|" + Labels + "|"

  /** `pretty_print_board`: border, the rows top to bottom, border, column labels. */
  function PrettyPrintBoard(b: Board): (s: string)
    requires IsBoard(b)
    ensures HasPieceValues(b) ==> |s| == 152
  {
    PrintedLength(b);
    Border + RowsText(FlipUD(b)) + Border + "|" + ColumnLabels(Cols) + "|"
  }

  lemma {:induction false} RowTextLength(row: seq<int>)
    requires forall i :: 0 <= i < |row| ==> 0 <= row[i] <= 2
    ensures |RowText(row)| == 2 * |row|
  {
    if |row| > 0 {
      RowTextLength(row[1..]);
    }
  }

  lemma {:induction false} RowsTextLength(rows: seq<seq<int>>)
    requires forall r :: 0 <= r < |rows| ==> |rows[r]| == Cols && forall i :: 0 <= i < Cols ==> 0 <= rows[r][i] <= 2
    ensures |RowsText(rows)| == 17 * |rows|
  {
    if |rows| > 0 {
      RowTextLength(rows[0]);
      RowsTextLength(rows[1..]);
    }
  }

  lemma PrintedLength(b: Board)
    requires IsBoard(b)
    ensures HasPieceValues(b) ==> |Border + RowsText(FlipUD(b)) + Border + "|" + ColumnLabels(Cols) + "|"| == 152
  {
    if HasPieceValues(b) {
      FlippedPieceValues(b);
      RowsTextLength(FlipUD(b));
      LabelsText();
      LengthSum(Border, RowsText(FlipUD(b)), ColumnLabels(Cols));
    }
  }

  lemma LengthSum(border: string, rows: string, labels: string)
    requires |border| == 17 && |rows| == 17 * Rows && |labels| == 14
    ensures |border + rows + border + "|" + labels + "|"| == 152
  {
  }

  /** Flipping keeps every row seven wide and every cell a piece value. */
  lemma FlippedPieceValues(b: Board)
    requires IsBoard(b) && HasPieceValues(b)
    ensures var f := FlipUD(b);
      && |f| == Rows
      && forall r :: 0 <= r < |f| ==> |f[r]| == Cols && forall i :: 0 <= i < Cols ==> 0 <= f[r][i] <= 2
  {
    var f := FlipUD(b);
    forall r | 0 <= r < Rows
      ensures |f[r]| == Cols && forall i :: 0 <= i < Cols ==> 0 <= f[r][i] <= 2
    {
      assert f[r] == b[Rows - 1 - r];
    }
  }

  lemma {:induction false} BlankRowText(row: seq<int>)
    requires forall i :: 0 <= i < |row| ==> row[i] == NoPlayer
    ensures RowText(row) == seq(2 * |row|, _ => ' ')
  {
    if |row| > 0 {
      BlankRowText(row[1..]);
    }
  }

  /** The text of the empty board. */
  lemma EmptyBoardText(b: Board)
    requires b == InitializeGameState()
    ensures PrettyPrintBoard(b) ==
      "|==============|\n"
      + "|              |\n" + "|              |\n" + "|              |\n"
      + "|              |\n" + "|              |\n" + "|              |\n"
      + "|==============|\n"
      + "|0 1 2 3 4 5 6 |"
  {
    var line := "|              |\n";
    BlankBoardRows(b, line);
    RepeatSix(line);
    PrintedForm(b);
    EdgesText();
    EmptyGlue(Border, RowsText(FlipUD(b)), FooterText, line);
  }

  lemma EmptyGlue(border: string, rows: string, footer: string, line: string)
    requires border == "|==============|\n"
    requires line == "|              |\n"
    requires rows == line + line + line + line + line + line
    requires footer == "|==============|\n" + "|0 1 2 3 4 5 6 |"
    ensures border + rows + footer ==
      "|==============|\n"
      + "|              |\n" + "|              |\n" + "|              |\n"
      + "|              |\n" + "|              |\n" + "|              |\n"
      + "|==============|\n"
      + "|0 1 2 3 4 5 6 |"
  {
  }

  lemma EdgesText()
    ensures Border == "|==============|\n"
    ensures FooterText == "|==============|\n" + "|0 1 2 3 4 5 6 |"
  {
  }

  lemma LabelsText()
    ensures ColumnLabels(Cols) == Labels
  {
  }

  lemma RepeatSix(line: string)
    ensures Repeat(line, 6) == line + line + line + line + line + line
  {
    assert Repeat(line, 1) == line + "" == line;
    assert Repeat(line, 2) == line + line;
    assert Repeat(line, 3) == line + line + line;
    assert Repeat(line, 4) == line + line + line + line;
    assert Repeat(line, 5) == line + line + line + line + line;
  }

  lemma BlankBoardRows(b: Board, line: string)
    requires b == InitializeGameState()
    requires line == "|              |\n"
    ensures RowsText(FlipUD(b)) == Repeat(line, Rows)
  {
    var f := FlipUD(b);
    forall r | 0 <= r < Rows
      ensures "|" + RowText(f[r]) + "|\n" == line
    {
      assert f[r] == b[Rows - 1 - r];
      BlankRowText(f[r]);
    }
    BlankRowsText(f, line);
  }

  function Repeat(line: string, n: nat): string
  {
    if n == 0 then "" else line + Repeat(line, n - 1)
  }

  lemma {:induction false} BlankRowsText(rows: seq<seq<int>>, line: string)
    requires forall r :: 0 <= r < |rows| ==> "|" + RowText(rows[r]) + "|\n" == line
    ensures RowsText(rows) == Repeat(line, |rows|)
  {
    if |rows| > 0 {
      BlankRowsText(rows[1..], line);
    }
  }

  // Python's str.split with a non-empty separator.

  /** `sep` occurs in `s` at index `i`. */
  predicate SepAt(s: string, sep: string, i: int) {
    0 <= i && i + |sep| <= |s| && s[i..i + |sep|] == sep
  }

  /** The first occurrence of `sep` in `s` at or after `from`, or `|s|` if there is none. */
  function IndexOf(s: string, sep: string, from: nat): (k: nat)
    requires |sep| > 0 && from <= |s|
    decreases |s| - from
    ensures from <= k <= |s|
    ensures k < |s| ==> SepAt(s, sep, k)
    ensures forall i :: from <= i < k ==> !SepAt(s, sep, i)
  {
    if from + |sep| > |s| then |s|
    else if s[from..from + |sep|] == sep then from
    else IndexOf(s, sep, from + 1)
  }

  /** `s.split(sep)`: the pieces between the leftmost non-overlapping occurrences of `sep`. */
  function Split(s: string, sep: string): (pieces: seq<string>)
    requires |sep| > 0
    decreases |s|
    ensures |pieces| >= 1
  {
    var k := IndexOf(s, sep, 0);
    if k == |s| then [s] else [s[..k]] + Split(s[k + |sep|..], sep)
  }

  /** `sep.join(pieces)`. */
  function Join(pieces: seq<string>, sep: string): string
    requires |pieces| >= 1
  {
    if |pieces| == 1 then pieces[0] else pieces[0] + sep + Join(pieces[1..], sep)
  }

  /** Splitting loses nothing: joining the pieces gives the string back. */
  lemma {:induction false} JoinSplit(s: string, sep: string)
    requires |sep| > 0
    ensures Join(Split(s, sep), sep) == s
    decreases |s|
  {
    var k := IndexOf(s, sep, 0);
    if k < |s| {
      var rest := s[k + |sep|..];
      JoinSplit(rest, sep);
      SplitStep(s, sep);
      JoinCons(s[..k], Split(rest, sep), sep);
      SliceAround(s, k, |sep|);
    }
  }

  lemma SliceAround(s: string, k: nat, n: nat)
    requires k + n <= |s|
    ensures s == s[..k] + s[k..k + n] + s[k + n..]
  {
  }

  lemma SplitStep(s: string, sep: string)
    requires |sep| > 0
    ensures var k := IndexOf(s, sep, 0);
      k < |s| ==> Split(s, sep) == [s[..k]] + Split(s[k + |sep|..], sep)
  {
  }

  lemma JoinCons(p: string, pieces: seq<string>, sep: string)
    requires |pieces| >= 1
    ensures Join([p] + pieces, sep) == p + sep + Join(pieces, sep)
  {
    assert ([p] + pieces)[1..] == pieces;
  }

  /** A piece in which no separator starts splits off on its own. */
  lemma SplitCons(p: string, sep: string, rest: string)
    requires |sep| > 0
    requires forall i :: 0 <= i < |p| ==> !SepAt(p + sep + rest, sep, i)
    ensures Split(p + sep + rest, sep) == [p] + Split(rest, sep)
  {
    var s := p + sep + rest;
    assert s[|p|..|p| + |sep|] == sep;
    assert SepAt(s, sep, |p|);
    var k := IndexOf(s, sep, 0);
    assert k == |p|;
    assert s[..k] == p;
    assert s[k + |sep|..] == rest;
  }

  /** A string in which no separator starts is a single piece. */
  lemma SplitWhole(s: string, sep: string)
    requires |sep| > 0
    requires forall i :: 0 <= i < |s| ==> !SepAt(s, sep, i)
    ensures Split(s, sep) == [s]
  {
  }

  /** Without a bar, no separator can start inside `p`. */
  lemma NoBarNoSeparator(p: string, rest: string)
    requires '|' !in p
    ensures forall i :: 0 <= i < |p| ==> !SepAt(p + Separator + rest, Separator, i)
  {
    NoBreakNoSeparator(p, rest);
  }

  /** No separator starts inside `p` when every bar in `p` is followed by something other than a line break. */
  lemma NoBreakNoSeparator(p: string, rest: string)
    requires forall i :: 0 <= i < |p| && p[i] == '|' ==> i + 1 < |p| && p[i + 1] != '\n'
    ensures forall i :: 0 <= i < |p| ==> !SepAt(p + Separator + rest, Separator, i)
  {
    var s := p + Separator + rest;
    forall i | 0 <= i < |p|
      ensures !SepAt(s, Separator, i)
    {
      assert s[i] == p[i];
      if p[i] == '|' {
        assert s[i + 1] == p[i + 1];
      }
      NotSeparatorAt(s, i);
    }
  }

  /** A string with one separator, and no bar before the end of its second part, splits in two. */
  lemma SplitTwo(p: string, q: string)
    requires '|' !in p
    requires forall i :: 0 <= i < |q| - 1 ==> q[i] != '|'
    ensures Split(p + Separator + q, Separator) == [p, q]
  {
    NoBarNoSeparator(p, q);
    SplitCons(p, Separator, q);
    forall i | 0 <= i < |q|
      ensures !SepAt(q, Separator, i)
    {
      if i < |q| - 1 {
        NotSeparatorAt(q, i);
      }
    }
    SplitWhole(q, Separator);
  }

  /** A separator starts with a bar followed by a line break. */
  lemma NotSeparatorAt(s: string, i: int)
    requires 0 <= i < |s|
    requires s[i] != '|' || (i + 1 < |s| && s[i + 1] != '\n')
    ensures !SepAt(s, Separator, i)
  {
    if i + 3 <= |s| {
      assert s[i..i + 3][0] == s[i] && s[i..i + 3][1] == s[i + 1];
    }
  }

  // Python's s[0::2] and the character table of string_to_board.

  /** `s[0::2]`: the characters at even indices. */
  function EveryOther(s: string): (t: string)
    ensures |t| == (|s| + 1) / 2
    ensures forall i :: 0 <= i < |t| ==> t[i] == s[2 * i]
  {
    if |s| <= 1 then s else [s[0]] + EveryOther(s[2..])
  }

  /** `{" ": NO_PLAYER, "X": PLAYER1, "O": PLAYER2}[ch]`; a missing key raises. */
  function CharToPiece(ch: char): Option<int>
  {
    if ch == ' ' then Some(NoPlayer)
    else if ch == 'X' then Some(Player1)
    else if ch == 'O' then Some(Player2)
    else None
  }

  /** The list comprehension over the row's characters: None when a character is not in the table. */
  function ParseCells(chars: string): (r: Option<seq<int>>)
    ensures r.Some? ==> |r.value| == |chars| && forall i :: 0 <= i < |chars| ==> CharToPiece(chars[i]) == Some(r.value[i])
    ensures r.None? ==> exists i :: 0 <= i < |chars| && CharToPiece(chars[i]).None?
  {
    if |chars| == 0 then Some([])
    else match CharToPiece(chars[0])
      case None => None
      case Some(v) =>
        match ParseCells(chars[1..])
        case None => None
        case Some(vs) => Some([v] + vs)
  }

  /**
    One row of `string_to_board`: every second character, decoded, then
    assigned to a board row; numpy broadcasts a single value across the row
    and raises for any other length.
  */
  function ParseRow(row: string): (r: Option<seq<int>>)
    ensures r.Some? ==> |r.value| == Cols && forall i :: 0 <= i < Cols ==> 0 <= r.value[i] <= 2
  {
    match ParseCells(EveryOther(row))
    case None => None
    case Some(vals) =>
      if |vals| == Cols then Some(vals)
      else if |vals| == 1 then Some(seq(Cols, _ => vals[0]))
      else None
  }

  /** The rows parsed in order, or None when one of them raises. */
  function ParseRows(rows: seq<string>): (r: Option<seq<seq<int>>>)
    ensures r.Some? ==> |r.value| == |rows| && forall i :: 0 <= i < |rows| ==> ParseRow(rows[i]) == Some(r.value[i])
  {
    if |rows| == 0 then Some([])
    else match ParseRow(rows[0])
      case None => None
      case Some(v) =>
        match ParseRows(rows[1..])
        case None => None
        case Some(vs) => Some([v] + vs)
  }

  /**
    `string_to_board` as written: the pieces `[1:-2]` of the split on "|\n|"
    are assigned to rows 0, 1, ... in the order they appear, that is the
    printed top row to row 0. None stands for every outcome the model does not
    give a board for: an exception, or fewer than six row pieces, which leaves
    rows of `np.empty` uninitialised.
  */
  function StringToBoard(s: string): (r: Option<Board>)
    ensures r.Some? ==> IsBoard(r.value) && HasPieceValues(r.value)
  {
    var pieces := Split(s, Separator);
    var rows := if |pieces| >= 3 then pieces[1..|pieces| - 2] else [];
    if |rows| != Rows then None else ParseRows(rows)
  }

  /** `string_to_board` corrected to write the i-th printed row to row `BOARD_ROWS - 1 - i`. */
  function StringToBoardFixed(s: string): (r: Option<Board>)
    ensures r.Some? ==> IsBoard(r.value) && HasPieceValues(r.value)
  {
    match StringToBoard(s)
    case None => None
    case Some(b) => Some(FlipUD(b))
  }

  // The round trip.

  /** The characters at even positions of a printed row decode to the row. */
  lemma {:induction false} RowTextParses(row: seq<int>)
    requires forall i :: 0 <= i < |row| ==> 0 <= row[i] <= 2
    ensures '|' !in RowText(row)
    ensures ParseCells(EveryOther(RowText(row))) == Some(row)
  {
    if |row| > 0 {
      RowTextParses(row[1..]);
      var t := CellText(row[0]);
      var rest := RowText(row[1..]);
      assert RowText(row) == t + rest;
      assert (t + rest)[2..] == rest;
      assert EveryOther(t + rest) == [t[0]] + EveryOther(rest);
      assert ([t[0]] + EveryOther(rest))[1..] == EveryOther(rest);
      assert CharToPiece(t[0]) == Some(row[0]);
      assert [row[0]] + row[1..] == row;
    }
  }

  /** Everything the printer writes from the given rows on, without the leading bar. */
  function Tail(rows: seq<seq<int>>): string
  {
    (RowsText(rows) + FooterText)[1..]
  }

  /** The printed texts of the given rows, in order. */
  function RowTexts(rows: seq<seq<int>>): (ts: seq<string>)
    ensures |ts| == |rows| && forall r :: 0 <= r < |rows| ==> ts[r] == RowText(rows[r])
  {
    if |rows| == 0 then [] else [RowText(rows[0])] + RowTexts(rows[1..])
  }

  /** The two pieces the footer leaves after the last row: the rule and the column labels. */
  const FooterPieces: seq<string> := [Rule, Labels + "|"]

  /** The pieces the text after the header splits into. */
  lemma {:induction false} SplitTail(rows: seq<seq<int>>)
    requires forall r :: 0 <= r < |rows| ==> |rows[r]| == Cols && forall i :: 0 <= i < Cols ==> 0 <= rows[r][i] <= 2
    ensures Split(Tail(rows), Separator) == RowTexts(rows) + FooterPieces
  {
    if |rows| == 0 {
      SplitFooter(Tail(rows));
    } else {
      var row := RowText(rows[0]);
      var rest := RowTexts(rows[1..]);
      RowTextParses(rows[0]);
      TailCons(rows);
      SplitTail(rows[1..]);
      SplitRowStep(row, Tail(rows[1..]), rest + FooterPieces);
      ConsAssoc(row, rest, FooterPieces);
    }
  }

  /** A bar-free piece before a separator splits off ahead of the pieces of the rest. */
  lemma SplitRowStep(row: string, rest: string, pieces: seq<string>)
    requires '|' !in row && Split(rest, Separator) == pieces
    ensures Split(row + Separator + rest, Separator) == [row] + pieces
  {
    NoBarNoSeparator(row, rest);
    SplitCons(row, Separator, rest);
  }

  lemma ConsAssoc<T>(x: T, a: seq<T>, f: seq<T>)
    ensures [x] + (a + f) == ([x] + a) + f
  {
  }

  lemma TailCons(rows: seq<seq<int>>)
    requires |rows| > 0
    ensures Tail(rows) == RowText(rows[0]) + Separator + Tail(rows[1..])
  {
    var x := RowText(rows[0]);
    var r := RowsText(rows[1..]);
    StartsWithBar(rows[1..]);
    assert RowsText(rows) == "|" + x + "|\n" + r;
    Regroup(x, r, FooterText);
    BarSlice(x, r + FooterText);
  }

  lemma Regroup(x: string, r: string, f: string)
    ensures "|" + x + "|\n" + r + f == "|" + x + "|\n" + (r + f)
  {
  }

  lemma BarSlice(x: string, after: string)
    requires |after| > 0 && after[0] == '|'
    ensures ("|" + x + "|\n" + after)[1..] == x + Separator + after[1..]
  {
    assert after == "|" + after[1..];
  }

  /** The printed text from any row on starts with a bar. */
  lemma StartsWithBar(rows: seq<seq<int>>)
    ensures |RowsText(rows) + FooterText| > 0 && (RowsText(rows) + FooterText)[0] == '|'
  {
    if |rows| == 0 {
      FooterStartsWithBar();
      assert RowsText(rows) + FooterText == FooterText;
    }
  }

  lemma FooterStartsWithBar()
    ensures |FooterText| > 0 && FooterText[0] == '|'
  {
    assert FooterText == "|" + (Rule + "|\n" + "|" + Labels + "|");
  }

  lemma SplitFooter(t: string)
    requires t == Tail([])
    ensures Split(t, Separator) == FooterPieces
  {
    assert RowsText([]) + FooterText == FooterText;
    FooterShape(Rule, Labels);
    RuleAndLabelsHaveNoBar();
    SplitTwo(Rule, Labels + "|");
  }

  /** Without its leading bar, the footer is the rule, a separator and the labels with their closing bar. */
  lemma FooterShape(rule: string, labels: string)
    ensures ("|" + rule + "|\n" + "|" + labels + "|")[1..] == rule + Separator + (labels + "|")
  {
  }

  lemma RuleAndLabelsHaveNoBar()
    ensures '|' !in Rule
    ensures forall i :: 0 <= i < |Labels| ==> Labels[i] != '|'
  {
  }

  /** The printer's output is the border, the rows top to bottom and the footer. */
  lemma PrintedForm(b: Board)
    requires IsBoard(b)
    ensures PrettyPrintBoard(b) == Border + RowsText(FlipUD(b)) + FooterText
  {
    LabelsText();
  }

  /** The printed board splits into the header, the rows top to bottom, and the two footer pieces. */
  lemma SplitPrinted(b: Board)
    requires IsBoard(b) && HasPieceValues(b)
    ensures var f := FlipUD(b);
      Split(PrettyPrintBoard(b), Separator)
        == ["|" + Rule] + RowTexts(f) + FooterPieces
  {
    var f := FlipUD(b);
    FlippedPieceValues(b);
    var head := "|" + Rule;
    PrintedHeadTail(b, head);
    NoBreakNoSeparator(head, Tail(f));
    SplitCons(head, Separator, Tail(f));
    SplitTail(f);
  }

  lemma PrintedHeadTail(b: Board, head: string)
    requires IsBoard(b)
    requires head == "|" + Rule
    ensures PrettyPrintBoard(b) == head + Separator + Tail(FlipUD(b))
  {
    var f := FlipUD(b);
    PrintedForm(b);
    StartsWithBar(f);
    Glue(head, RowsText(f), FooterText);
  }

  lemma Glue(head: string, rows: string, footer: string)
    requires head == "|" + Rule
    requires |rows + footer| > 0 && (rows + footer)[0] == '|'
    ensures Border + rows + footer == head + Separator + (rows + footer)[1..]
  {
    var rest := rows + footer;
    assert rest == "|" + rest[1..];
    assert Border + rows + footer == head + "|\n" + rest;
  }

  /** Parsing the printed rows gives the rows back. */
  lemma {:induction false} ParsePrintedRows(rows: seq<seq<int>>)
    requires forall r :: 0 <= r < |rows| ==> |rows[r]| == Cols && forall i :: 0 <= i < Cols ==> 0 <= rows[r][i] <= 2
    ensures ParseRows(RowTexts(rows)) == Some(rows)
  {
    var texts := RowTexts(rows);
    if |rows| > 0 {
      RowTextParses(rows[0]);
      assert ParseRow(texts[0]) == Some(rows[0]);
      assert texts[1..] == RowTexts(rows[1..]);
      ParsePrintedRows(rows[1..]);
      assert [rows[0]] + rows[1..] == rows;
    }
  }

  /** The source's parse of a printed board is that board upside down. */
  lemma StringToBoardFlips(b: Board)
    requires IsBoard(b) && HasPieceValues(b)
    ensures StringToBoard(PrettyPrintBoard(b)) == Some(FlipUD(b))
  {
    var f := FlipUD(b);
    SplitPrinted(b);
    var pieces := Split(PrettyPrintBoard(b), Separator);
    assert pieces[1..|pieces| - 2] == RowTexts(f);
    forall r | 0 <= r < Rows
      ensures |f[r]| == Cols && forall i :: 0 <= i < Cols ==> 0 <= f[r][i] <= 2
    {
      assert f[r] == b[Rows - 1 - r];
    }
    ParsePrintedRows(f);
  }

  /** The corrected parse inverts the printer on every board of pieces. */
  lemma StringToBoardFixedRoundTrip(b: Board)
    requires IsBoard(b) && HasPieceValues(b)
    ensures StringToBoardFixed(PrettyPrintBoard(b)) == Some(b)
  {
    StringToBoardFlips(b);
    assert FlipUD(FlipUD(b)) == b;
  }

  /** The source's parse returns the printed board only when the board reads the same upside down. */
  lemma StringToBoardIdentityIffSymmetric(b: Board)
    requires IsBoard(b) && HasPieceValues(b)
    ensures StringToBoard(PrettyPrintBoard(b)) == Some(b) <==> FlipUD(b) == b
  {
    StringToBoardFlips(b);
  }

  /** One piece of Player1 in the bottom-left corner: printing then parsing puts it in the top-left corner. */
  lemma StringToBoardLosesBottomRow()
    ensures var b := InitializeGameState()[0 := [1, 0, 0, 0, 0, 0, 0]];
      IsBoard(b) && HasPieceValues(b) && StringToBoard(PrettyPrintBoard(b)) != Some(b)
  {
    var b := InitializeGameState()[0 := [1, 0, 0, 0, 0, 0, 0]];
    assert IsBoard(b) && HasPieceValues(b);
    StringToBoardIdentityIffSymmetric(b);
    assert FlipUD(b)[0][0] == b[5][0] == NoPlayer;
  }
}
