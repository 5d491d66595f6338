/** The VGA text writer: a cursor, a colour byte and a buffer of
    `BUFFER_HEIGHT` rows of `BUFFER_WIDTH` characters. The constants are the
    ones the writer declares (25 columns, 80 rows) and are used consistently
    as `chars[row][col]`. */
module Vga {
  import opened Outcomes

  const BUFFER_WIDTH: nat := 25
  const BUFFER_HEIGHT: nat := 80
  const LAST_ROW: nat := BUFFER_HEIGHT - 1

  type Byte = x: int | 0 <= x < 256

  const BACKSPACE: Byte := 0x08
  const TAB: Byte := 0x09
  const NEWLINE: Byte := 0x0A
  const CARRIAGE_RETURN: Byte := 0x0D
  const SPACE: Byte := 0x20

  /** A 4-bit colour, `#[repr(u8)]`. */
  datatype HalfColor =
    | Black | Blue | Green | Cyan | Red | Magenta | Brown | LightGray
    | DarkGray | LightBlue | LightGreen | LightCyan | LightRed | Pink | Yellow | White
  {
    /** The discriminant, as the `u8` the cast produces. */
    function Code(): (c: bv8)
      ensures c < 16
    {
      match this
      case Black => 0      case Blue => 1        case Green => 2       case Cyan => 3
      case Red => 4        case Magenta => 5     case Brown => 6       case LightGray => 7
      case DarkGray => 8   case LightBlue => 9   case LightGreen => 10 case LightCyan => 11
      case LightRed => 12  case Pink => 13       case Yellow => 14     case White => 15
    }
  }

  /** `Color::new(foreground, background)`: the high nibble is the
      background, the low nibble the foreground. */
  function NewColor(foreground: HalfColor, background: HalfColor): (c: bv8)
    ensures c >> 4 == background.Code() && c & 0xF == foreground.Code()
  {
    (background.Code() << 4) | foreground.Code()
  }

  /** A colour byte determines both half colours. */
  lemma ColorDetermines(fg1: HalfColor, bg1: HalfColor, fg2: HalfColor, bg2: HalfColor)
    requires NewColor(fg1, bg1) == NewColor(fg2, bg2)
    ensures fg1 == fg2 && bg1 == bg2
  {
  }

  /** The colour of the global `Console`: white on black. */
  const CONSOLE_COLOR: bv8 := NewColor(White, Black)

  /** A cell of the buffer: the character code and its colour. */
  datatype Character = Character(charCode: Byte, color: bv8)

  /** The bytes the last arm of `write_byte` puts on the screen. */
  predicate Printable(b: Byte) {
    b != NEWLINE && b != CARRIAGE_RETURN && b != TAB && b != BACKSPACE
  }

  /** `[ch; BUFFER_WIDTH]`. */
  function RowOf(ch: Character): (row: seq<Character>)
    ensures |row| == BUFFER_WIDTH && forall c :: 0 <= c < BUFFER_WIDTH ==> row[c] == ch
  {
    seq(BUFFER_WIDTH, _ => ch)
  }

  /** The writer as a value. */
  datatype Screen = Screen(col: nat, row: nat, color: bv8, chars: seq<seq<Character>>) {

    /** The buffer has its declared shape. */
    predicate Valid() {
      |chars| == BUFFER_HEIGHT && forall r :: 0 <= r < BUFFER_HEIGHT ==> |chars[r]| == BUFFER_WIDTH
    }

    /** The cursor is on a row and at most one past the last column. */
    predicate CursorInBounds() {
      row < BUFFER_HEIGHT && col <= BUFFER_WIDTH
    }

    /** A space in the current colour. */
    function Blank(): Character {
      Character(SPACE, color)
    }

    /** `chars[r][c] = ch`: one cell changes. */
    function Put(r: nat, c: nat, ch: Character): (s: Screen)
      requires Valid() && r < BUFFER_HEIGHT && c < BUFFER_WIDTH
      ensures s.Valid() && s.col == col && s.row == row && s.color == color
      ensures s.chars[r][c] == ch
      ensures forall r', c' :: 0 <= r' < BUFFER_HEIGHT && 0 <= c' < BUFFER_WIDTH && (r' != r || c' != c) ==>
        s.chars[r'][c'] == chars[r'][c']
    {
      this.(chars := chars[r := chars[r][c := ch]])
    }

    /** `scroll`: every row but the last takes the contents of the row below
        it; the last row keeps its contents. */
    function Scroll(): (s: Screen)
      requires Valid()
      ensures s.Valid() && s.col == col && s.row == row && s.color == color
      ensures forall r :: 0 <= r < BUFFER_HEIGHT - 1 ==> s.chars[r] == chars[r + 1]
      ensures s.chars[BUFFER_HEIGHT - 1] == chars[BUFFER_HEIGHT - 1]
    {
      this.(chars := chars[1..] + [chars[BUFFER_HEIGHT - 1]])
    }

    /** `clear_row(row)`: the row becomes blanks in the current colour; a row
        past the buffer is an out-of-bounds index. */
    function ClearRow(r: nat): (res: Result<Screen>)
      requires Valid()
      ensures res.Err? <==> r >= BUFFER_HEIGHT
      ensures res.Err? ==> res.fault == IndexOutOfBounds
      ensures res.Ok? ==>
        && res.value.Valid() && res.value.col == col && res.value.row == row && res.value.color == color
        && (forall c :: 0 <= c < BUFFER_WIDTH ==> res.value.chars[r][c] == Blank())
        && (forall r' :: 0 <= r' < BUFFER_HEIGHT && r' != r ==> res.value.chars[r'] == chars[r'])
    {
      if r < BUFFER_HEIGHT then Ok(this.(chars := chars[r := RowOf(Blank())]))
      else Err(IndexOutOfBounds)
    }

    /** `new_line`: back to column 0; down one row, or, on the last row,
        scroll and blank the last row while the cursor stays on its row. */
    function NewLine(): (s: Screen)
      requires Valid()
      ensures s.Valid() && s.col == 0 && s.color == color
      ensures row < LAST_ROW ==> s.row == row + 1 && s.chars == chars
      ensures row >= LAST_ROW ==>
        && s.row == row
        && (forall r :: 0 <= r < LAST_ROW ==> s.chars[r] == chars[r + 1])
        && (forall c :: 0 <= c < BUFFER_WIDTH ==> s.chars[LAST_ROW][c] == Blank())
    {
      if row < LAST_ROW then this.(col := 0, row := row + 1)
      else
        var scrolled := this.(col := 0).Scroll();
        var cleared := scrolled.ClearRow(LAST_ROW).value;
        assert forall c :: 0 <= c < BUFFER_WIDTH ==> cleared.chars[LAST_ROW][c] == Blank();
        cleared
    }

    /** `write_byte(byte)`. */
    function WriteByte(b: Byte): (r: Result<Screen>)
      requires Valid()
      ensures r.Ok? ==> r.value.Valid() && r.value.color == color
    {
      if b == NEWLINE then Ok(NewLine())
      else if b == CARRIAGE_RETURN then Ok(this.(col := 0))
      else if b == TAB then Err(ConsoleDeadlock)
      else if b == BACKSPACE then
        if col == 0 && row == 0 then Ok(this)
        else if row >= BUFFER_HEIGHT || col >= BUFFER_WIDTH then Err(IndexOutOfBounds)
        else if col == 0 then Ok(Put(row, col, Blank()).(row := row - 1, col := BUFFER_WIDTH - 1))
        else Ok(Put(row, col, Blank()).(col := col - 1))
      else
        var s := if col >= BUFFER_WIDTH then NewLine() else this;
        if s.row >= BUFFER_HEIGHT then Err(IndexOutOfBounds)
        else Ok(s.Put(s.row, s.col, Character(b, color)).(col := s.col + 1))
    }

    /** `write_str`: the bytes in order, stopping at the first fault. */
    function WriteAll(bs: seq<Byte>): (r: Result<Screen>)
      requires Valid()
      ensures r.Ok? ==> r.value.Valid() && r.value.color == color
      decreases |bs|
    {
      if bs == [] then Ok(this)
      else
        var s :- WriteAll(bs[..|bs| - 1]);
        s.WriteByte(bs[|bs| - 1])
    }

    /** `clear_screen`: every cell a blank in the current colour, the cursor
        at the top left. */
    function ClearScreen(): (s: Screen)
      ensures s.Valid() && s.col == 0 && s.row == 0 && s.color == color
      ensures forall r, c :: 0 <= r < BUFFER_HEIGHT && 0 <= c < BUFFER_WIDTH ==> s.chars[r][c] == Blank()
    {
      var blankRow := RowOf(Blank());
      Screen(0, 0, color, seq(BUFFER_HEIGHT, _ => blankRow))
    }
  }

  /** Every byte but `'\t'` keeps the cursor in bounds, and from a cursor in
      bounds the only faults are the tab, whose `print!` re-locks the held
      console lock, and a backspace one past the last column, which indexes
      `chars[row][BUFFER_WIDTH]`; `'\n'` is `new_line`. */
  lemma WriteByteKeepsCursor(s: Screen, b: Byte)
    requires s.Valid() && s.CursorInBounds()
    ensures s.WriteByte(b).Err? <==> b == TAB || (b == BACKSPACE && s.col == BUFFER_WIDTH)
    ensures b == NEWLINE ==> s.WriteByte(b) == Ok(s.NewLine())
    ensures b == TAB ==> s.WriteByte(b) == Err(ConsoleDeadlock)
    ensures b == BACKSPACE && s.col == BUFFER_WIDTH ==> s.WriteByte(b) == Err(IndexOutOfBounds)
    ensures s.WriteByte(b).Ok? ==> s.WriteByte(b).value.CursorInBounds()
  {
  }

  /** `'\r'` moves the cursor to column 0 and changes nothing else. */
  lemma CarriageReturnOnlyMovesCursor(s: Screen)
    requires s.Valid()
    ensures s.WriteByte(CARRIAGE_RETURN).Ok?
    ensures var t := s.WriteByte(CARRIAGE_RETURN).value;
      t.col == 0 && t.row == s.row && t.color == s.color && t.chars == s.chars
  {
  }

  /** A printable byte goes to the cursor, after a new line when the cursor
      is past the last column, and the cursor moves one column right; no
      other cell changes beyond those the new line changed. */
  lemma PrintableWritesAtCursor(s: Screen, b: Byte)
    requires s.Valid() && s.CursorInBounds() && Printable(b)
    ensures s.WriteByte(b).Ok?
    ensures var base := if s.col >= BUFFER_WIDTH then s.NewLine() else s;
      var t := s.WriteByte(b).value;
      && t.chars[base.row][base.col] == Character(b, s.color)
      && t.row == base.row && t.col == base.col + 1
      && (forall r, c :: 0 <= r < BUFFER_HEIGHT && 0 <= c < BUFFER_WIDTH && (r != base.row || c != base.col) ==>
            t.chars[r][c] == base.chars[r][c])
  {
  }

  /** The three backspace cases: nothing at the top left; at column 0 the
      cell is blanked and the cursor goes to the end of the row above;
      otherwise the cell is blanked and the cursor moves one column left. */
  lemma BackspaceCases(s: Screen)
    requires s.Valid() && s.row < BUFFER_HEIGHT && s.col < BUFFER_WIDTH
    ensures s.WriteByte(BACKSPACE).Ok?
    ensures var t := s.WriteByte(BACKSPACE).value;
      && (s.col == 0 && s.row == 0 ==> t == s)
      && (s.col == 0 && s.row > 0 ==> t.row == s.row - 1 && t.col == BUFFER_WIDTH - 1)
      && (s.col > 0 ==> t.row == s.row && t.col == s.col - 1)
      && ((s.col, s.row) != (0, 0) ==> t.chars == s.Put(s.row, s.col, s.Blank()).chars)
  {
  }

  /** A run of printable bytes that fits in the rest of the row lands in the
      cells from the cursor onward, and the cursor ends just after it. */
  lemma {:induction false} WriteRun(s: Screen, bs: seq<Byte>)
    requires s.Valid() && s.row < BUFFER_HEIGHT && s.col + |bs| <= BUFFER_WIDTH
    requires forall k :: 0 <= k < |bs| ==> Printable(bs[k])
    ensures s.WriteAll(bs).Ok?
    ensures var t := s.WriteAll(bs).value;
      && t.row == s.row && t.col == s.col + |bs|
      && (forall k :: 0 <= k < |bs| ==> t.chars[s.row][s.col + k] == Character(bs[k], s.color))
      && (forall r, c :: 0 <= r < BUFFER_HEIGHT && 0 <= c < BUFFER_WIDTH && (r != s.row || c < s.col || c >= s.col + |bs|) ==>
            t.chars[r][c] == s.chars[r][c])
    decreases |bs|
  {
    if bs != [] {
      var init := bs[..|bs| - 1];
      var last := bs[|bs| - 1];
      WriteRun(s, init);
      var u := s.WriteAll(init).value;
      PrintableWritesAtCursor(u, last);
      forall k | 0 <= k < |bs|
        ensures s.WriteAll(bs).value.chars[s.row][s.col + k] == Character(bs[k], s.color)
      {
        if k < |bs| - 1 {
          assert bs[k] == init[k];
        }
      }
    }
  }

  /** Once a prefix of the bytes faults, so does the whole string, with
      the same fault: nothing after a halted `write_byte` happens. */
  lemma {:induction false} WriteAllStopsAtFault(s: Screen, bs: seq<Byte>, n: nat)
    requires s.Valid() && n <= |bs| && s.WriteAll(bs[..n]).Err?
    ensures s.WriteAll(bs) == s.WriteAll(bs[..n])
    decreases |bs|
  {
    if n < |bs| {
      var init := bs[..|bs| - 1];
      assert init[..n] == bs[..n];
      WriteAllStopsAtFault(s, init, n);
    } else {
      assert bs[..n] == bs;
    }
  }

  /** A full row of printable bytes written from column 0, then a
      backspace: the cursor stands one past the last column and the
      backspace indexes out of bounds. */
  lemma FullRowThenBackspace(s: Screen, bs: seq<Byte>)
    requires s.Valid() && s.row < BUFFER_HEIGHT && s.col == 0 && |bs| == BUFFER_WIDTH
    requires forall k :: 0 <= k < |bs| ==> Printable(bs[k])
    ensures s.WriteAll(bs + [BACKSPACE]) == Err(IndexOutOfBounds)
  {
    WriteRun(s, bs);
    assert (bs + [BACKSPACE])[..|bs|] == bs;
  }

  /** The `Writer`: the cursor, the colour and the buffer of rows, each row
      a `[Character; BUFFER_WIDTH]` value that `scroll` and `clear_row`
      assign whole. */
  class Writer {
    var col: nat
    var row: nat
    var color: bv8
    const buffer: array<seq<Character>>

    predicate Valid()
      reads this, buffer
    {
      buffer.Length == BUFFER_HEIGHT && forall r :: 0 <= r < BUFFER_HEIGHT ==> |buffer[r]| == BUFFER_WIDTH
    }

    /** The writer, as a value. */
    function State(): Screen
      reads this, buffer
    {
      Screen(col, row, color, buffer[..])
    }

    /** A writer at the top left over the given screen contents, as the
        global `Console` starts over whatever the buffer holds. */
    constructor (color: bv8, contents: seq<seq<Character>>)
      requires Screen(0, 0, color, contents).Valid()
      ensures Valid() && fresh(buffer)
      ensures State() == Screen(0, 0, color, contents)
    {
      col := 0;
      row := 0;
      this.color := color;
      buffer := new seq<Character>[BUFFER_HEIGHT](r requires 0 <= r < BUFFER_HEIGHT => contents[r]);
    }

    /** `clear_row(row)`. */
    method ClearRow(r: nat) returns (res: Result<()>)
      requires Valid()
      modifies buffer
      ensures Valid()
      ensures var spec := old(State().ClearRow(r));
        && (spec.Ok? ==> res.Ok? && State() == spec.value)
        && (spec.Err? ==> res == Err(spec.fault))
    {
      if r >= BUFFER_HEIGHT {
        return Err(IndexOutOfBounds);
      }
      buffer[r] := RowOf(Character(SPACE, color));
      return Ok(());
    }

    /** `scroll`. */
    method Scroll()
      requires Valid()
      modifies buffer
      ensures Valid()
      ensures State() == old(State().Scroll())
    {
      for r := 0 to LAST_ROW
        invariant forall r' :: 0 <= r' < r ==> buffer[r'] == old(buffer[r' + 1])
        invariant forall r' :: r <= r' < BUFFER_HEIGHT ==> buffer[r'] == old(buffer[r'])
      {
        buffer[r] := buffer[r + 1];
      }
    }

    /** `new_line`. */
    method NewLine()
      requires Valid()
      modifies this, buffer
      ensures Valid()
      ensures State() == old(State().NewLine())
    {
      col := 0;
      if row < LAST_ROW {
        row := row + 1;
      } else {
        Scroll();
        var cleared := ClearRow(LAST_ROW);
      }
    }

    /** `write_byte(byte)`. */
    method WriteByte(b: Byte) returns (r: Result<()>)
      requires Valid()
      modifies this, buffer
      ensures Valid()
      ensures var spec := old(State().WriteByte(b));
        && (spec.Ok? ==> r.Ok? && State() == spec.value)
        && (spec.Err? ==> r == Err(spec.fault))
    {
      if b == NEWLINE {
        NewLine();
      } else if b == CARRIAGE_RETURN {
        col := 0;
      } else if b == TAB {
        return Err(ConsoleDeadlock);
      } else if b == BACKSPACE {
        var blank := Character(SPACE, color);
        if col == 0 && row == 0 {
          return Ok(());
        } else if row >= BUFFER_HEIGHT || col >= BUFFER_WIDTH {
          return Err(IndexOutOfBounds);
        } else if col == 0 {
          buffer[row] := buffer[row][col := blank];
          row := row - 1;
          col := BUFFER_WIDTH - 1;
        } else {
          buffer[row] := buffer[row][col := blank];
          col := col - 1;
        }
      } else {
        if col >= BUFFER_WIDTH {
          NewLine();
        }
        if row >= BUFFER_HEIGHT {
          return Err(IndexOutOfBounds);
        }
        buffer[row] := buffer[row][col := Character(b, color)];
        col := col + 1;
      }
      return Ok(());
    }

    /** `write_str(string)`: `write_byte` for each byte in turn. */
    method WriteStr(bs: seq<Byte>) returns (r: Result<()>)
      requires Valid()
      modifies this, buffer
      ensures Valid()
      ensures var spec := old(State().WriteAll(bs));
        && (spec.Ok? ==> r.Ok? && State() == spec.value)
        && (spec.Err? ==> r == Err(spec.fault))
    {
      for i := 0 to |bs|
        invariant Valid()
        invariant old(State().WriteAll(bs[..i])) == Ok(State())
      {
        assert bs[..i + 1][..i] == bs[..i];
        r := WriteByte(bs[i]);
        if r.Err? {
          WriteAllStopsAtFault(old(State()), bs, i + 1);
          return;
        }
      }
      assert bs[..|bs|] == bs;
      return Ok(());
    }

    /** `clear_screen`. */
    method ClearScreen()
      requires Valid()
      modifies this, buffer
      ensures Valid()
      ensures State() == old(State().ClearScreen())
    {
      col := 0;
      row := 0;
      var blank := Character(SPACE, color);
      for r := 0 to BUFFER_HEIGHT
        invariant Valid() && col == 0 && row == 0 && color == old(color)
        invariant forall r' :: 0 <= r' < r ==> buffer[r'] == RowOf(blank)
      {
        for c := 0 to BUFFER_WIDTH
          invariant Valid() && col == 0 && row == 0 && color == old(color)
          invariant forall r' :: 0 <= r' < r ==> buffer[r'] == RowOf(blank)
          invariant forall c' :: 0 <= c' < c ==> buffer[r][c'] == blank
        {
          buffer[r] := buffer[r][c := blank];
        }
        assert buffer[r] == RowOf(blank);
      }
      assert buffer[..] == old(State().ClearScreen()).chars;
    }
  }
}
