/** The VGA text console of kernel/kernel.c: 25 rows of 80 cells at
    0xB8000, each cell a character byte followed by an attribute byte,
    the cursor that print_string moves over them, and print_hex. Each
    byte of video memory is held as a char whose code is the byte's value,
    as the C code stores `char` values there. */
module Console {
  import opened Word

  const MAX_ROWS: nat := 25
  const MAX_COLS: nat := 80
  /** The bytes of the text screen, two for each of the 25 x 80 cells. */
  const VIDEO_SIZE: nat := 4000
  /** The attribute byte 0x0f, white on black. */
  const WHITE_ON_BLACK: char := '\U{F}'
  const BACKSPACE: char := '\U{8}'

  /** The offset print_char writes the character of (col, row) at; the
      attribute goes to the next byte. */
  function Offset(col: int, row: int): int {
    160 * row + 2 * col
  }

  predicate OnScreen(col: int, row: int) {
    0 <= col < MAX_COLS && 0 <= row < MAX_ROWS
  }

  /** Distinct cells of the screen have distinct offsets, all inside the
      4000 bytes. */
  lemma Offsets(c1: int, r1: int, c2: int, r2: int)
    requires OnScreen(c1, r1) && OnScreen(c2, r2)
    ensures 0 <= Offset(c1, r1) && Offset(c1, r1) + 1 < VIDEO_SIZE
    ensures Offset(c1, r1) == Offset(c2, r2) <==> c1 == c2 && r1 == r2
    ensures Offset(c1, r1) != Offset(c2, r2) + 1
  {
  }

  /** The video memory after print_char(c, col, row, attr). */
  function Written(v: seq<char>, c: char, col: int, row: int, attr: char): (r: seq<char>)
    requires |v| == VIDEO_SIZE && OnScreen(col, row)
    ensures |r| == VIDEO_SIZE
  {
    v[Offset(col, row) := c][Offset(col, row) + 1 := attr]
  }

  /** print_char puts the character and the attribute in the cell at
      (col, row) and changes no other cell. */
  lemma WrittenCells(v: seq<char>, c: char, col: int, row: int, attr: char)
    requires |v| == VIDEO_SIZE && OnScreen(col, row)
    ensures var r := Written(v, c, col, row, attr);
      && r[Offset(col, row)] == c && r[Offset(col, row) + 1] == attr
      && forall c2, r2 :: OnScreen(c2, r2) && (c2, r2) != (col, row) ==>
           r[Offset(c2, r2)] == v[Offset(c2, r2)] && r[Offset(c2, r2) + 1] == v[Offset(c2, r2) + 1]
  {
    forall c2, r2 | OnScreen(c2, r2) && (c2, r2) != (col, row)
      ensures Written(v, c, col, row, attr)[Offset(c2, r2)] == v[Offset(c2, r2)]
      ensures Written(v, c, col, row, attr)[Offset(c2, r2) + 1] == v[Offset(c2, r2) + 1]
    {
      Offsets(c2, r2, col, row);
      Offsets(col, row, c2, r2);
    }
  }

  /** A blank cell as clear_screen writes it, byte by byte. */
  function BlankByte(i: int): char {
    if i % 2 == 0 then ' ' else WHITE_ON_BLACK
  }

  /** The last row once print_string has cleared it. */
  function BlankRow(): (r: seq<char>)
    ensures |r| == 2 * MAX_COLS
  {
    seq(2 * MAX_COLS, i => BlankByte(i))
  }

  /** The screen after print_string's scroll: rows 1 to 24 move up one
      row and the last row is blank. */
  function Scroll(v: seq<char>): (r: seq<char>)
    requires |v| == VIDEO_SIZE
    ensures |r| == VIDEO_SIZE
  {
    v[2 * MAX_COLS..] + BlankRow()
  }

  /** After a scroll every cell holds what the cell below it held, and
      the last row is blank. */
  lemma ScrollCells(v: seq<char>, col: int, row: int)
    requires |v| == VIDEO_SIZE && OnScreen(col, row)
    ensures row < MAX_ROWS - 1 ==>
      Scroll(v)[Offset(col, row)] == v[Offset(col, row + 1)] && Scroll(v)[Offset(col, row) + 1] == v[Offset(col, row + 1) + 1]
    ensures row == MAX_ROWS - 1 ==>
      Scroll(v)[Offset(col, row)] == ' ' && Scroll(v)[Offset(col, row) + 1] == WHITE_ON_BLACK
  {
    if row == MAX_ROWS - 1 {
      assert Scroll(v)[Offset(col, row)] == BlankRow()[2 * col];
      assert Scroll(v)[Offset(col, row) + 1] == BlankRow()[2 * col + 1];
    }
  }

  /** The column a tab moves to: `(col + 4) & ~3`, which for a column
      that is not negative is the next multiple of 4. */
  function TabStop(col: nat): (r: nat)
    ensures r % 4 == 0 && col < r <= col + 4
  {
    (col + 4) / 4 * 4
  }

  /** The screen and the cursor (cursor_row, cursor_col). */
  datatype Display = Display(cells: seq<char>, row: int, col: int)

  predicate Fits(d: Display) {
    |d.cells| == VIDEO_SIZE && OnScreen(d.col, d.row)
  }

  /** One character of print_string. A newline goes to the start of the
      next row; a backspace, unless at the start of the row, blanks the
      cell before the cursor and moves back onto it; a tab moves to the
      next multiple of 4, to the next row when that leaves the line; any
      other character is written at the cursor, which advances and moves
      to the next row at the end of the line. When the cursor leaves the
      last row the screen scrolls and the cursor stays on the last row. */
  function Step(d: Display, ch: char): (r: Display)
    requires Fits(d)
    ensures Fits(r)
  {
    var e :=
      if ch == '\n' then Display(d.cells, d.row + 1, 0)
      else if ch == BACKSPACE then
        if d.col > 0 then Display(Written(d.cells, ' ', d.col - 1, d.row, WHITE_ON_BLACK), d.row, d.col - 1) else d
      else if ch == '\t' then
        if TabStop(d.col) >= MAX_COLS then Display(d.cells, d.row + 1, 0) else Display(d.cells, d.row, TabStop(d.col))
      else
        var v := Written(d.cells, ch, d.col, d.row, WHITE_ON_BLACK);
        if d.col + 1 >= MAX_COLS then Display(v, d.row + 1, 0) else Display(v, d.row, d.col + 1);
    if e.row >= MAX_ROWS then Display(Scroll(e.cells), MAX_ROWS - 1, e.col) else e
  }

  /** The display after print_string of the text t. */
  function Run(d: Display, t: seq<char>): (r: Display)
    requires Fits(d)
    ensures Fits(r)
  {
    if t == [] then d else Step(Run(d, t[..|t| - 1]), t[|t| - 1])
  }

  /** A printable character lands at the cursor, in white on black, and
      the cursor moves one cell on; only a character in the last cell of
      the screen scrolls it, taking the character up with it. */
  lemma StepPrints(d: Display, ch: char)
    requires Fits(d) && ch != '\n' && ch != BACKSPACE && ch != '\t'
    ensures var r := Step(d, ch);
      var row := if d.row == MAX_ROWS - 1 && d.col == MAX_COLS - 1 then d.row - 1 else d.row;
      && r.cells[Offset(d.col, row)] == ch && r.cells[Offset(d.col, row) + 1] == WHITE_ON_BLACK
      && (d.col < MAX_COLS - 1 ==> r.row == d.row && r.col == d.col + 1)
      && (d.col == MAX_COLS - 1 ==> r.col == 0 && r.row == if d.row < MAX_ROWS - 1 then d.row + 1 else d.row)
  {
    var v := Written(d.cells, ch, d.col, d.row, WHITE_ON_BLACK);
    WrittenCells(d.cells, ch, d.col, d.row, WHITE_ON_BLACK);
    if d.row == MAX_ROWS - 1 && d.col == MAX_COLS - 1 {
      ScrollCells(v, d.col, d.row - 1);
    }
  }

  /** A backspace at the start of a row does nothing; elsewhere it blanks
      the cell before the cursor and moves back onto it. */
  lemma StepErases(d: Display)
    requires Fits(d)
    ensures d.col == 0 ==> Step(d, BACKSPACE) == d
    ensures d.col > 0 ==>
      var r := Step(d, BACKSPACE);
      && r.row == d.row && r.col == d.col - 1
      && r.cells[Offset(r.col, r.row)] == ' ' && r.cells[Offset(r.col, r.row) + 1] == WHITE_ON_BLACK
  {
    if d.col > 0 {
      WrittenCells(d.cells, ' ', d.col - 1, d.row, WHITE_ON_BLACK);
    }
  }

  /** A newline or a tab writes nothing; a tab stops at a multiple of 4
      within the line, or starts the next row. */
  lemma StepMoves(d: Display)
    requires Fits(d)
    ensures var r := Step(d, '\n');
      r.col == 0 && r.row == (if d.row < MAX_ROWS - 1 then d.row + 1 else d.row)
      && r.cells == (if d.row < MAX_ROWS - 1 then d.cells else Scroll(d.cells))
    ensures var r := Step(d, '\t');
      && r.col % 4 == 0 && (r.col == 0 || d.col < r.col <= d.col + 4)
      && (d.col < MAX_COLS - 4 ==> r == Display(d.cells, d.row, r.col))
      && (d.col >= MAX_COLS - 4 ==> r == Step(d, '\n'))
  {
  }

  /** Text without control characters that fits in the rest of the row
      is written left to right from the cursor, which ends just after
      it. */
  lemma {:induction false} RunWritesLine(d: Display, t: seq<char>)
    requires Fits(d) && d.col + |t| < MAX_COLS
    requires forall i :: 0 <= i < |t| ==> t[i] != '\n' && t[i] != BACKSPACE && t[i] != '\t'
    ensures var r := Run(d, t);
      && r.row == d.row && r.col == d.col + |t|
      && forall i :: 0 <= i < |t| ==> r.cells[Offset(d.col + i, d.row)] == t[i]
  {
    if t != [] {
      var u := t[..|t| - 1];
      var c := t[|t| - 1];
      RunWritesLine(d, u);
      var m := Run(d, u);
      var v := Written(m.cells, c, m.col, m.row, WHITE_ON_BLACK);
      assert Run(d, t) == Step(m, c);
      assert Step(m, c) == Display(v, m.row, m.col + 1);
      forall i | 0 <= i < |t|
        ensures v[Offset(d.col + i, d.row)] == t[i]
      {
        if i < |u| {
          assert u[i] == t[i];
          assert v[Offset(d.col + i, d.row)] == m.cells[Offset(d.col + i, d.row)];
        }
      }
    }
  }

  /** The upper-case digits of print_hex. */
  const HEX_DIGITS: seq<char> := "0123456789ABCDEF"

  /** The k lowest hexadecimal digits of n, the most significant first. */
  function Digits(n: nat, k: nat): (r: seq<char>)
    ensures |r| == k
    ensures forall i :: 0 <= i < k ==> r[i] in HEX_DIGITS
  {
    if k == 0 then [] else Digits(n / 16, k - 1) + [HEX_DIGITS[n % 16]]
  }

  /** What print_hex prints: "0x" and eight digits. */
  function Hex(num: nat): (r: seq<char>)
    ensures |r| == 10 && r[..2] == "0x"
  {
    "0x" + Digits(num, 8)
  }

  /** The value of a hexadecimal digit. */
  function DigitValue(c: char): nat {
    if '0' <= c <= '9' then c as int - '0' as int
    else if 'A' <= c <= 'F' then c as int - 'A' as int + 10
    else 0
  }

  /** The number a run of hexadecimal digits spells. */
  function FromHex(s: seq<char>): nat {
    if s == [] then 0 else FromHex(s[..|s| - 1]) * 16 + DigitValue(s[|s| - 1])
  }

  function Pow16(k: nat): (r: nat)
    ensures r > 0
  {
    if k == 0 then 1 else 16 * Pow16(k - 1)
  }

  /** Each digit reads back as its own value. */
  lemma DigitValues(d: nat)
    requires d < 16
    ensures DigitValue(HEX_DIGITS[d]) == d
  {
  }

  /** k digits of a number below 16^k read back as that number. */
  lemma {:induction false} DigitsRoundTrip(n: nat, k: nat)
    requires n < Pow16(k)
    ensures FromHex(Digits(n, k)) == n
  {
    if k > 0 {
      DigitsRoundTrip(n / 16, k - 1);
      DigitValues(n % 16);
      var s := Digits(n, k);
      assert s[..|s| - 1] == Digits(n / 16, k - 1);
    }
  }

  /** print_hex prints every 32-bit value in full: its eight digits read
      back as the value. */
  lemma HexRoundTrip(num: nat)
    requires IsU32(num)
    ensures FromHex(Hex(num)[2..]) == num
  {
    assert Pow16(8) == U32;
    assert Hex(num)[2..] == Digits(num, 8);
    DigitsRoundTrip(num, 8);
  }

  /** Two values print differently. */
  lemma HexInjective(a: nat, b: nat)
    requires IsU32(a) && IsU32(b) && Hex(a) == Hex(b)
    ensures a == b
  {
    HexRoundTrip(a);
    HexRoundTrip(b);
  }

  /** n shifted right by 4k bits. */
  function Shift(n: nat, k: nat): nat {
    if k == 0 then n else Shift(n, k - 1) / 16
  }

  lemma {:induction false} ShiftInner(n: nat, k: nat)
    ensures Shift(n / 16, k) == Shift(n, k + 1)
  {
    if k > 0 {
      ShiftInner(n, k - 1);
    }
  }

  /** One more digit of n comes in front of the k lower ones. */
  lemma {:induction false} DigitsPrepend(n: nat, k: nat)
    ensures Digits(n, k + 1) == [HEX_DIGITS[Shift(n, k) % 16]] + Digits(n, k)
  {
    if k > 0 {
      DigitsPrepend(n / 16, k - 1);
      ShiftInner(n, k - 1);
    }
  }

  /** print_hex's digit loop, which fills its buffer from the right. */
  method FormatHex(num: nat) returns (buffer: seq<char>)
    requires IsU32(num)
    ensures buffer == Hex(num) + ['\0']
  {
    var buf := new char[11](i requires 0 <= i < 11 => "0x00000000\0"[i]);
    var n := num;
    var i := 9;
    while i >= 2
      invariant 1 <= i <= 9
      invariant n == Shift(num, 9 - i)
      invariant buf[..2] == "0x" && buf[10] == '\0'
      invariant buf[i + 1..10] == Digits(num, 9 - i)
    {
      DigitsPrepend(num, 9 - i);
      buf[i] := HEX_DIGITS[n % 16];
      n := n / 16;
      i := i - 1;
    }
    buffer := buf[..];
    assert buffer == buf[..2] + buf[2..10] + [buf[10]];
  }

  /** TabStop as kernel.c writes the tab, with no check against the end
      of the row: the cursor and the offset print_string writes the
      character at, for the column as written. */
  function StepAsWritten(row: int, col: nat, ch: char): (r: (int, nat, Option<int>))
  {
    var e :=
      if ch == '\n' then (row + 1, 0, None)
      else if ch == BACKSPACE then (if col > 0 then (row, col - 1, Some(Offset(col - 1, row))) else (row, col, None))
      else if ch == '\t' then (row, TabStop(col), None)
      else if col + 1 >= MAX_COLS then (row + 1, 0, Some(Offset(col, row)))
      else (row, col + 1, Some(Offset(col, row)));
    if e.0 >= MAX_ROWS then (MAX_ROWS - 1, e.1, e.2) else e
  }

  /** As written, a tab in the last four columns puts the cursor on column
      80, past the row: "\tAB" printed from column 78 writes 'A' at the
      offset of the next row's first cell, where 'B' then overwrites it;
      on the last row 'A' lands past the end of the screen. */
  lemma TabOverrunsRow()
    ensures StepAsWritten(0, 78, '\t') == (0, MAX_COLS, None)
    ensures StepAsWritten(0, 80, 'A') == (1, 0, Some(Offset(0, 1)))
    ensures StepAsWritten(1, 0, 'B') == (1, 1, Some(Offset(0, 1)))
    ensures StepAsWritten(24, 78, '\t') == (24, MAX_COLS, None)
    ensures StepAsWritten(24, 80, 'A').2 == Some(VIDEO_SIZE)
  {
  }

  /** With the tab wrapping at the end of the row, the cursor stays on
      the screen and the characters of a text land in distinct cells. */
  lemma TabStaysInRow(d: Display)
    requires Fits(d) && d.col >= MAX_COLS - 4
    ensures Step(d, '\t').col == 0
    ensures Step(d, '\t').row == if d.row < MAX_ROWS - 1 then d.row + 1 else d.row
  {
  }

  /** The text screen and print_string's cursor. */
  class Screen {
    var video: array<char>
    var row: int
    var col: int

    ghost predicate Valid()
      reads this
    {
      video.Length == VIDEO_SIZE && OnScreen(col, row)
    }

    function State(): Display
      reads this, video
    {
      Display(video[..], row, col)
    }

    constructor (memory: array<char>)
      requires memory.Length == VIDEO_SIZE
      ensures Valid() && video == memory && row == 0 && col == 0
    {
      video := memory;
      row, col := 0, 0;
    }

    /** print_char. */
    method PrintChar(c: char, x: int, y: int, attr: char)
      requires video.Length == VIDEO_SIZE && OnScreen(x, y)
      modifies video
      ensures video[..] == Written(old(video[..]), c, x, y, attr)
    {
      var offset := 2 * (y * MAX_COLS + x);
      video[offset] := c;
      video[offset + 1] := attr;
    }

    /** clear_screen: every cell blank, white on black, and the cursor
        home. */
    method ClearScreen()
      requires Valid()
      modifies this, video
      ensures Valid() && video == old(video) && row == 0 && col == 0
      ensures forall i :: 0 <= i < VIDEO_SIZE ==> video[i] == BlankByte(i)
    {
      var r := 0;
      while r < MAX_ROWS
        invariant r <= MAX_ROWS && Valid() && video == old(video)
        invariant forall i {:trigger video[i]} :: 0 <= i < 160 * r ==> video[i] == BlankByte(i)
      {
        ClearRow(r);
        r := r + 1;
      }
      row := 0;
      col := 0;
    }

    /** The inner loop of clear_screen: row r goes blank after the rows
        above it. */
    method ClearRow(r: nat)
      requires video.Length == VIDEO_SIZE && r < MAX_ROWS
      requires forall i {:trigger video[i]} :: 0 <= i < 160 * r ==> video[i] == BlankByte(i)
      modifies video
      ensures forall i {:trigger video[i]} :: 0 <= i < 160 * (r + 1) ==> video[i] == BlankByte(i)
    {
      var c := 0;
      while c < MAX_COLS
        invariant c <= MAX_COLS
        invariant forall i {:trigger video[i]} :: 0 <= i < 160 * r + 2 * c ==> video[i] == BlankByte(i)
      {
        PrintChar(' ', c, r, WHITE_ON_BLACK);
        c := c + 1;
      }
    }

    /** The scroll of print_string: each cell of rows 0 to 23 takes both
        bytes of the cell below it, then the last row is cleared. */
    method ScrollLines()
      requires video.Length == VIDEO_SIZE
      modifies video
      ensures video[..] == Scroll(old(video[..]))
    {
      MoveRowsUp();
      ClearLastRow();
      assert forall i :: 0 <= i < VIDEO_SIZE ==> video[..][i] == Scroll(old(video[..]))[i];
    }

    /** The copy loops of the scroll. */
    method MoveRowsUp()
      requires video.Length == VIDEO_SIZE
      modifies video
      ensures forall i {:trigger video[i]} :: 0 <= i < Offset(0, MAX_ROWS - 1) ==> video[i] == old(video[i + 2 * MAX_COLS])
      ensures forall i {:trigger video[i]} :: Offset(0, MAX_ROWS - 1) <= i < VIDEO_SIZE ==> video[i] == old(video[i])
    {
      ghost var orig := video[..];
      var r := 0;
      while r < MAX_ROWS - 1
        invariant r <= MAX_ROWS - 1
        invariant forall i {:trigger video[i]} :: 0 <= i < 2 * MAX_COLS * r ==> video[i] == orig[i + 2 * MAX_COLS]
        invariant forall i {:trigger video[i]} :: 2 * MAX_COLS * r <= i < VIDEO_SIZE ==> video[i] == orig[i]
      {
        MoveRow(r, orig);
        r := r + 1;
      }
    }

    /** The inner copy loop of the scroll, over the cells of row r. */
    method MoveRow(r: nat, ghost orig: seq<char>)
      requires video.Length == |orig| == VIDEO_SIZE && r < MAX_ROWS - 1
      requires forall i {:trigger video[i]} :: 0 <= i < 2 * MAX_COLS * r ==> video[i] == orig[i + 2 * MAX_COLS]
      requires forall i {:trigger video[i]} :: 2 * MAX_COLS * r <= i < VIDEO_SIZE ==> video[i] == orig[i]
      modifies video
      ensures forall i {:trigger video[i]} :: 0 <= i < 2 * MAX_COLS * (r + 1) ==> video[i] == orig[i + 2 * MAX_COLS]
      ensures forall i {:trigger video[i]} :: 2 * MAX_COLS * (r + 1) <= i < VIDEO_SIZE ==> video[i] == orig[i]
    {
      var c := 0;
      while c < MAX_COLS
        invariant c <= MAX_COLS
        invariant forall i {:trigger video[i]} :: 0 <= i < Offset(c, r) ==> video[i] == orig[i + 2 * MAX_COLS]
        invariant forall i {:trigger video[i]} :: Offset(c, r) <= i < VIDEO_SIZE ==> video[i] == orig[i]
      {
        MoveCell(r, c, orig);
        c := c + 1;
      }
    }

    /** One pass of the inner copy loop: the cell at column c of row r
        takes both bytes of the cell below it. */
    method MoveCell(r: nat, c: nat, ghost orig: seq<char>)
      requires video.Length == |orig| == VIDEO_SIZE && r < MAX_ROWS - 1 && c < MAX_COLS
      requires forall i {:trigger video[i]} :: 0 <= i < Offset(c, r) ==> video[i] == orig[i + 2 * MAX_COLS]
      requires forall i {:trigger video[i]} :: Offset(c, r) <= i < VIDEO_SIZE ==> video[i] == orig[i]
      modifies video
      ensures forall i {:trigger video[i]} :: 0 <= i < Offset(c + 1, r) ==> video[i] == orig[i + 2 * MAX_COLS]
      ensures forall i {:trigger video[i]} :: Offset(c + 1, r) <= i < VIDEO_SIZE ==> video[i] == orig[i]
    {
      var src := 2 * ((r + 1) * MAX_COLS + c);
      var dst := 2 * (r * MAX_COLS + c);
      assert dst == Offset(c, r) && src == dst + 2 * MAX_COLS;
      video[dst] := video[src];
      video[dst + 1] := video[src + 1];
    }

    /** The clearing loop of the scroll. */
    method ClearLastRow()
      requires video.Length == VIDEO_SIZE
      modifies video
      ensures forall i :: 0 <= i < Offset(0, MAX_ROWS - 1) ==> video[i] == old(video[i])
      ensures forall i :: Offset(0, MAX_ROWS - 1) <= i < VIDEO_SIZE ==> video[i] == BlankByte(i)
    {
      var c := 0;
      while c < MAX_COLS
        invariant c <= MAX_COLS
        invariant forall i :: 0 <= i < Offset(0, MAX_ROWS - 1) ==> video[i] == old(video[i])
        invariant forall i :: Offset(0, MAX_ROWS - 1) <= i < Offset(c, MAX_ROWS - 1) ==> video[i] == BlankByte(i)
      {
        PrintChar(' ', c, MAX_ROWS - 1, WHITE_ON_BLACK);
        c := c + 1;
      }
    }

    /** One pass of print_string's loop. */
    method Put(ch: char)
      requires Valid()
      modifies this, video
      ensures Valid() && video == old(video)
      ensures State() == Step(old(State()), ch)
    {
      if ch == '\n' {
        row := row + 1;
        col := 0;
      } else if ch == BACKSPACE {
        if col > 0 {
          col := col - 1;
          PrintChar(' ', col, row, WHITE_ON_BLACK);
        }
      } else if ch == '\t' {
        col := TabStop(col);
        if col >= MAX_COLS {
          col := 0;
          row := row + 1;
        }
      } else {
        PrintChar(ch, col, row, WHITE_ON_BLACK);
        col := col + 1;
        if col >= MAX_COLS {
          col := 0;
          row := row + 1;
        }
      }
      if row >= MAX_ROWS {
        ScrollLines();
        row := MAX_ROWS - 1;
      }
    }

    /** print_string. */
    method PrintString(str: seq<char>)
      requires Valid() && '\0' in str
      modifies this, video
      ensures Valid() && video == old(video)
      ensures State() == Run(old(State()), Text(str))
    {
      var i := 0;
      while str[i] != '\0'
        invariant Valid() && video == old(video)
        invariant i <= |Text(str)| && Text(str)[..i] == str[..i]
        invariant State() == Run(old(State()), str[..i])
        decreases |Text(str)| - i
      {
        assert str[..i + 1][..i] == str[..i];
        Put(str[i]);
        i := i + 1;
      }
    }

    /** print_hex. */
    method PrintHex(num: nat)
      requires Valid() && IsU32(num)
      modifies this, video
      ensures Valid() && video == old(video)
      ensures State() == Run(old(State()), Hex(num))
    {
      var buffer := FormatHex(num);
      TextOfLiteral(Hex(num));
      PrintString(buffer);
    }
  }
}
