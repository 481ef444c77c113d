/**
  Filling rectangles on an ST7735 display. The driver turns a rectangle into command
  and data bytes; the controller behind the bus is a state machine over those bytes,
  with an address window and an auto-incrementing write position.

  Any bus transfer may stop after any number of bytes, and any pin may fail to move.
 */
module St7735 {
  import opened Arithmetic
  import opened Bytes
  import opened Wrappers

  const U16_LIMIT: nat := 0x1_0000
  const COLUMN_ADDRESS_SET: byte := 0x2A
  const ROW_ADDRESS_SET: byte := 0x2B
  const MEMORY_WRITE: byte := 0x2C

  type Pixel = (nat, nat)
  type Frame = map<Pixel, nat>

  function At(f: Frame, p: Pixel): Option<nat> { if p in f then Some(f[p]) else None }

  // ---------- the controller ----------

  /** `column`, `row`: where the next pixel goes; `high`: the first byte of a pixel under way. */
  datatype Controller = Controller(
    selected: bool, dataMode: bool, command: byte, index: nat,
    firstColumn: nat, lastColumn: nat, firstRow: nat, lastRow: nat,
    column: nat, row: nat, high: Option<byte>, frame: Frame)

  function WithHigh(value: nat, b: byte): nat { b * 256 + value % 256 }

  function WithLow(value: nat, b: byte): nat { value / 256 * 256 + b }

  function Paint(c: Controller, color: nat): Controller {
    var d := c.(frame := c.frame[(c.column, c.row) := color], high := None);
    if c.column < c.lastColumn then d.(column := c.column + 1)
    else d.(column := c.firstColumn, row := if c.row < c.lastRow then c.row + 1 else c.firstRow)
  }

  function ReceiveParameter(c: Controller, b: byte): Controller {
    if c.command == COLUMN_ADDRESS_SET then
      match c.index
      case 0 => c.(index := 1, firstColumn := WithHigh(c.firstColumn, b))
      case 1 => c.(index := 2, firstColumn := WithLow(c.firstColumn, b))
      case 2 => c.(index := 3, lastColumn := WithHigh(c.lastColumn, b))
      case 3 => c.(index := 4, lastColumn := WithLow(c.lastColumn, b))
      case _ => c
    else if c.command == ROW_ADDRESS_SET then
      match c.index
      case 0 => c.(index := 1, firstRow := WithHigh(c.firstRow, b))
      case 1 => c.(index := 2, firstRow := WithLow(c.firstRow, b))
      case 2 => c.(index := 3, lastRow := WithHigh(c.lastRow, b))
      case 3 => c.(index := 4, lastRow := WithLow(c.lastRow, b))
      case _ => c
    else c
  }

  function Receive(c: Controller, b: byte): Controller {
    if !c.selected then c
    else if !c.dataMode then
      var d := c.(command := b, index := 0, high := None);
      if b == MEMORY_WRITE then d.(column := c.firstColumn, row := c.firstRow) else d
    else if c.command == MEMORY_WRITE then
      if c.high.None? then c.(high := Some(b)) else Paint(c, c.high.value * 256 + b)
    else ReceiveParameter(c, b)
  }

  function ReceiveAll(c: Controller, data: seq<byte>): Controller
    decreases data
  {
    if data == [] then c else Receive(ReceiveAll(c, data[..|data| - 1]), data[|data| - 1])
  }

  // ---------- setting the window ----------

  function HighByte(value: nat): byte { value / 256 % 256 }

  function LowByte(value: nat): byte { value % 256 }

  /** The last address is computed in 16 bits. */
  function Last(start: nat, length: nat): nat
    requires length > 0
  {
    (start + length - 1) % U16_LIMIT
  }

  function AddressData(start: nat, length: nat): (s: seq<byte>)
    requires length > 0
    ensures |s| == 4
  {
    [HighByte(start), LowByte(start), HighByte(Last(start, length)), LowByte(Last(start, length))]
  }

  lemma NoWrapAtTheEdge(start: nat, length: nat)
    requires 0 < length && start + length <= U16_LIMIT
    ensures Last(start, length) == start + length - 1
  {
  }

  /** First and last address, each with its high byte first. */
  lemma AddressBytes(start: nat, length: nat)
    requires 0 < length && start + length <= U16_LIMIT
    ensures var s := AddressData(start, length);
            s[0] as int * 256 + s[1] == start && s[2] as int * 256 + s[3] == start + length - 1
  {
    hide Last;
    NoWrapAtTheEdge(start, length);
  }

  lemma FourBytes(c: Controller, s: seq<byte>)
    requires |s| == 4
    ensures ReceiveAll(c, s) == Receive(Receive(Receive(Receive(c, s[0]), s[1]), s[2]), s[3])
  {
    assert s[..3][..2] == s[..2] && s[..2][..1] == s[..1] && s[..1][..0] == [];
    assert ReceiveAll(c, s[..1]) == Receive(ReceiveAll(c, s[..1][..0]), s[0]);
    assert ReceiveAll(c, s[..2]) == Receive(ReceiveAll(c, s[..2][..1]), s[1]);
    assert ReceiveAll(c, s[..3]) == Receive(ReceiveAll(c, s[..3][..2]), s[2]);
  }

  lemma HighAndLow(value: nat, v: nat)
    requires v < U16_LIMIT
    ensures WithLow(WithHigh(value, HighByte(v)), LowByte(v)) == v
  {
  }

  /** Four address bytes set exactly the window asked for, as long as it ends in 16 bits. */
  lemma ColumnsSet(c: Controller, start: nat, length: nat)
    requires c.selected && c.dataMode && c.command == COLUMN_ADDRESS_SET && c.index == 0
    requires 0 < length && start + length <= U16_LIMIT
    ensures ReceiveAll(c, AddressData(start, length))
         == c.(index := 4, firstColumn := start, lastColumn := start + length - 1)
  {
    hide WithHigh, WithLow, ReceiveAll, Paint, HighByte, LowByte, Last;
    NoWrapAtTheEdge(start, length);
    FourBytes(c, AddressData(start, length));
    HighAndLow(c.firstColumn, start);
    HighAndLow(c.lastColumn, start + length - 1);
  }

  lemma RowsSet(c: Controller, start: nat, length: nat)
    requires c.selected && c.dataMode && c.command == ROW_ADDRESS_SET && c.index == 0
    requires 0 < length && start + length <= U16_LIMIT
    ensures ReceiveAll(c, AddressData(start, length))
         == c.(index := 4, firstRow := start, lastRow := start + length - 1)
  {
    hide WithHigh, WithLow, ReceiveAll, Paint, HighByte, LowByte, Last;
    NoWrapAtTheEdge(start, length);
    FourBytes(c, AddressData(start, length));
    HighAndLow(c.firstRow, start);
    HighAndLow(c.lastRow, start + length - 1);
  }

  /** Parameters of other commands never touch the frame. */
  lemma {:induction false} ParametersKeepFrame(c: Controller, data: seq<byte>)
    requires c.dataMode && c.command != MEMORY_WRITE
    ensures var d := ReceiveAll(c, data);
            d.frame == c.frame && d.dataMode && d.command == c.command && d.selected == c.selected
    decreases data
  {
    if data != [] {
      ParametersKeepFrame(c, data[..|data| - 1]);
    }
  }

  // ---------- streaming pixels ----------

  /** The cell of the `k`-th pixel of a window, row by row; behind the last row it starts over. */
  function Cell(column: nat, row: nat, width: nat, height: nat, k: nat): Pixel
    requires width > 0 && height > 0
  {
    (column + ColumnOf(k, width), row + RowOf(k, width, height))
  }

  function ColumnOf(k: nat, width: nat): nat
    requires width > 0
  {
    k % width
  }

  function RowOf(k: nat, width: nat, height: nat): nat
    requires width > 0 && height > 0
  {
    k / width % height
  }

  function Area(width: nat, height: nat): nat { width * height }

  /** Two pixels share a cell only if they are a whole window apart. */
  lemma CellsDiffer(column: nat, row: nat, width: nat, height: nat, a: nat, b: nat)
    requires width > 0 && height > 0 && a < b
    requires Cell(column, row, width, height, a) == Cell(column, row, width, height, b)
    ensures a + Area(width, height) <= b
  {
    hide Area, ColumnOf, RowOf;
    SameColumn(a, b, width, height);
  }

  lemma SameColumn(a: nat, b: nat, width: nat, height: nat)
    requires width > 0 && height > 0 && a < b
    requires ColumnOf(a, width) == ColumnOf(b, width) && RowOf(a, width, height) == RowOf(b, width, height)
    ensures a + Area(width, height) <= b
  {
    hide Area;
    var i, j := a / width, b / width;
    assert a == width * i + a % width && b == width * j + a % width;
    if j < i {
      Grows(width, j, i);
    }
    RowsApart(i, j, a % width, width, height);
  }

  lemma RowsApart(i: nat, j: nat, column: nat, width: nat, height: nat)
    requires height > 0 && i < j && i % height == j % height
    ensures width * i + column + Area(width, height) <= width * j + column
  {
    ApartInRing(i, j, height);
    MultiplyMonotone(i + height, j, width);
    assert width * (i + height) == width * i + width * height;
  }

  lemma ApartInRing(i: nat, j: nat, n: nat)
    requires n > 0 && i < j && i % n == j % n
    ensures i + n <= j
  {
    var p, q := i / n, j / n;
    assert i == n * p + i % n && j == n * q + j % n;
    if q > p {
      Grows(n, p, q);
    } else {
      MultiplyMonotone(q, p, n);
    }
  }

  function Color(pixels: seq<byte>, k: nat): nat
    requires 2 * k + 1 < |pixels|
  {
    pixels[2 * k] as int * 256 + pixels[2 * k + 1]
  }

  /** The frame after the first `n` pixels. */
  function Painted(f: Frame, column: nat, row: nat, width: nat, height: nat, pixels: seq<byte>, n: nat): Frame
    requires width > 0 && height > 0 && 2 * n <= |pixels|
  {
    if n == 0 then f
    else
      Painted(f, column, row, width, height, pixels, n - 1)
        [Cell(column, row, width, height, n - 1) := Color(pixels, n - 1)]
  }

  lemma PaintedStarts(f: Frame, column: nat, row: nat, width: nat, height: nat, pixels: seq<byte>)
    requires width > 0 && height > 0
    ensures Painted(f, column, row, width, height, pixels, 0) == f
    ensures Cell(column, row, width, height, 0) == (column, row)
  {
    QuotientIsUnique(0, width, 0, 0);
    QuotientIsUnique(0, height, 0, 0);
  }

  lemma PaintedGoesOn(f: Frame, column: nat, row: nat, width: nat, height: nat, pixels: seq<byte>, n: nat)
    requires width > 0 && height > 0 && 2 * n + 2 <= |pixels|
    ensures Painted(f, column, row, width, height, pixels, n + 1)
         == Painted(f, column, row, width, height, pixels, n)
              [Cell(column, row, width, height, n) := pixels[2 * n] as int * 256 + pixels[2 * n + 1]]
  {
  }

  /** The next cell is one further in the row, or at the start of the next row, or of the window. */
  lemma NextCell(column: nat, row: nat, width: nat, height: nat, n: nat)
    requires width > 0 && height > 0
    ensures var p := Cell(column, row, width, height, n);
            column <= p.0 < column + width && row <= p.1 < row + height
            && Cell(column, row, width, height, n + 1)
               == if p.0 < column + width - 1 then (p.0 + 1, p.1)
                  else (column, if p.1 < row + height - 1 then p.1 + 1 else row)
  {
    NextRemainder(n, width);
    NextRemainder(n / width, height);
  }

  predicate Windowed(c: Controller, column: nat, row: nat, width: nat, height: nat) {
    && c.firstColumn == column && c.lastColumn == column + width - 1
    && c.firstRow == row && c.lastRow == row + height - 1
  }

  predicate SameWindow(c: Controller, d: Controller) {
    && d.firstColumn == c.firstColumn && d.lastColumn == c.lastColumn
    && d.firstRow == c.firstRow && d.lastRow == c.lastRow
  }

  predicate Streaming(c: Controller, width: nat, height: nat) {
    && c.selected && c.dataMode && c.command == MEMORY_WRITE
    && width > 0 && height > 0
    && c.lastColumn == c.firstColumn + width - 1 && c.lastRow == c.firstRow + height - 1
  }

  /** `d` is what `c` has become after `k` bytes of pixels. */
  predicate After(c: Controller, width: nat, height: nat, pixels: seq<byte>, k: nat, d: Controller)
    requires width > 0 && height > 0 && k <= |pixels|
  {
    && Streaming(d, width, height) && d.firstColumn == c.firstColumn && d.firstRow == c.firstRow
    && d.frame == Painted(c.frame, c.firstColumn, c.firstRow, width, height, pixels, k / 2)
    && (d.column, d.row) == Cell(c.firstColumn, c.firstRow, width, height, k / 2)
    && d.high == if k % 2 == 0 then None else Some(pixels[k - 1])
  }

  lemma FirstByte(c: Controller, width: nat, height: nat, pixels: seq<byte>, n: nat, d: Controller)
    requires width > 0 && height > 0 && 2 * n < |pixels| && After(c, width, height, pixels, 2 * n, d)
    ensures After(c, width, height, pixels, 2 * n + 1, Receive(d, pixels[2 * n]))
  {
    hide Painted, Cell;
  }

  lemma SecondByte(c: Controller, width: nat, height: nat, pixels: seq<byte>, n: nat, d: Controller)
    requires width > 0 && height > 0 && 2 * n + 1 < |pixels|
    requires After(c, width, height, pixels, 2 * n + 1, d)
    ensures After(c, width, height, pixels, 2 * n + 2, Receive(d, pixels[2 * n + 1]))
  {
    hide Painted, Cell;
    PaintedGoesOn(c.frame, c.firstColumn, c.firstRow, width, height, pixels, n);
    NextCell(c.firstColumn, c.firstRow, width, height, n);
    assert (2 * n + 2) / 2 == n + 1 && (2 * n + 1) / 2 == n;
  }

  lemma OneMoreByte(c: Controller, data: seq<byte>, k: nat)
    requires k < |data|
    ensures ReceiveAll(c, data[..k + 1]) == Receive(ReceiveAll(c, data[..k]), data[k])
  {
    assert data[..k + 1][..k] == data[..k];
  }

  /** However many bytes get through, the pixels they complete are in their cells, and no other cell changes. */
  lemma {:induction false} Streams(c: Controller, width: nat, height: nat, pixels: seq<byte>, k: nat)
    requires Streaming(c, width, height) && c.column == c.firstColumn && c.row == c.firstRow && c.high.None?
    requires k <= |pixels|
    ensures After(c, width, height, pixels, k, ReceiveAll(c, pixels[..k]))
  {
    hide Receive, Painted, Cell;
    if k == 0 {
      PaintedStarts(c.frame, c.firstColumn, c.firstRow, width, height, pixels);
    } else {
      hide After, ReceiveAll;
      Streams(c, width, height, pixels, k - 1);
      OneMoreByte(c, pixels, k - 1);
      var d, n := ReceiveAll(c, pixels[..k - 1]), (k - 1) / 2;
      if k % 2 == 1 {
        FirstByte(c, width, height, pixels, n, d);
      } else {
        SecondByte(c, width, height, pixels, n, d);
      }
    }
  }

  /** A cell of the window has the last colour sent for it, and before the first one is as it was. */
  lemma {:induction false} PaintedAt(f: Frame, column: nat, row: nat, width: nat, height: nat,
                                     pixels: seq<byte>, n: nat, k: nat)
    requires width > 0 && height > 0 && 2 * n <= |pixels|
    requires if k < n then n <= k + Area(width, height) else k < Area(width, height)
    ensures At(Painted(f, column, row, width, height, pixels, n), Cell(column, row, width, height, k))
         == if k < n then Some(Color(pixels, k)) else At(f, Cell(column, row, width, height, k))
  {
    hide Cell, Color, Area;
    if n > 0 && k != n - 1 {
      if Cell(column, row, width, height, n - 1) == Cell(column, row, width, height, k) {
        if k < n - 1 {
          CellsDiffer(column, row, width, height, k, n - 1);
        } else {
          CellsDiffer(column, row, width, height, n - 1, k);
        }
      }
      PaintedAt(f, column, row, width, height, pixels, n - 1, k);
    }
  }

  /** Every cell outside the window is as before, however many pixels are sent. */
  lemma {:induction false} PaintedElsewhere(f: Frame, column: nat, row: nat, width: nat, height: nat,
                                            pixels: seq<byte>, n: nat, p: Pixel)
    requires width > 0 && height > 0 && 2 * n <= |pixels|
    requires !(column <= p.0 < column + width && row <= p.1 < row + height)
    ensures At(Painted(f, column, row, width, height, pixels, n), p) == At(f, p)
  {
    hide Cell, Color;
    if n > 0 {
      PaintedElsewhere(f, column, row, width, height, pixels, n - 1, p);
      NextCell(column, row, width, height, n - 1);
    }
  }

  // ---------- the driver ----------

  datatype Profile = Profile(width: nat, height: nat, columnOffset: nat, rowOffset: nat)
  {
    predicate Valid() {
      && 0 < width < U16_LIMIT && 0 < height < U16_LIMIT
      && columnOffset + width <= U16_LIMIT && rowOffset + height <= U16_LIMIT
    }

    predicate ValidWindow(x: nat, y: nat, w: nat, h: nat) {
      && w > 0 && h > 0 && x < width && y < height && w <= width - x && h <= height - y
      && columnOffset + x + w <= U16_LIMIT && rowOffset + y + h <= U16_LIMIT
    }

    predicate Shows(p: Pixel) { p.0 < width && p.1 < height }

    /**
      A rectangle with a pixel in it is a valid window exactly if the panel shows every pixel
      of it and its last address in the controller fits 16 bits.
     */
    lemma ValidWindowIff(x: nat, y: nat, w: nat, h: nat)
      ensures ValidWindow(x, y, w, h)
              <==> && w > 0 && h > 0
                   && (forall p: Pixel :: Inside(p, x, y, w, h) ==> Shows(p))
                   && columnOffset + x + w - 1 < U16_LIMIT && rowOffset + y + h - 1 < U16_LIMIT
    {
      if w > 0 && h > 0 {
        var corner: Pixel := (x + w - 1, y + h - 1);
        assert Inside(corner, x, y, w, h);
      }
    }
  }

  datatype DisplayError = NotInitialized | InvalidArgument | Bus | ChipSelect | DataCommand

  /** The controller after a command byte. */
  function Commanded(c: Controller, command: byte): Controller {
    Receive(c.(dataMode := false), command)
  }

  class Driver {
    const panel: Profile
    const configurationValid: bool
    var initialized: bool
    var chip: Controller
    ghost var faults: nat  // how often the bus or a pin has failed

    constructor (panel: Profile, configurationValid: bool, chip: Controller)
      ensures this.panel == panel && this.configurationValid == configurationValid
      ensures this.chip == chip && !initialized
    {
      this.panel, this.configurationValid, this.chip, initialized := panel, configurationValid, chip, false;
      faults := 0;
    }

    // ----- the bus and the pins -----

    /** A transfer that may stop after any byte. */
    method WriteBus(data: seq<byte>) returns (r: Outcome<DisplayError>, ghost sent: nat)
      modifies `chip, `faults
      ensures sent <= |data| && chip == ReceiveAll(old(chip), data[..sent])
      ensures r == Pass ==> sent == |data|
      ensures r.Pass? || r == Fail(Bus)
      ensures faults == old(faults) + if r.Pass? then 0 else 1
    {
      hide Receive, ReceiveAll;
      sent := 0;
      NothingSent(chip);
      for i := 0 to |data|
        invariant sent == i && faults == old(faults) && chip == ReceiveAll(old(chip), data[..i])
      {
        if * {
          faults := faults + 1;
          return Fail(Bus), sent;
        }
        OneMoreByte(old(chip), data, i);
        chip := Receive(chip, data[i]);
        sent := i + 1;
      }
      return Pass, sent;
    }

    static lemma NothingSent(c: Controller)
      ensures ReceiveAll(c, []) == c
    {
    }

    method SetDataCommand(level: bool) returns (r: Outcome<DisplayError>)
      modifies `chip, `faults
      ensures r.Pass? ==> chip == old(chip).(dataMode := level)
      ensures r.Fail? ==> r.error == DataCommand && chip == old(chip).(dataMode := chip.dataMode)
      ensures faults == old(faults) + if r.Pass? then 0 else 1
    {
      var ok: bool, moves: bool := *, *;
      if ok || moves {
        chip := chip.(dataMode := level);
      }
      if !ok {
        faults := faults + 1;
        return Fail(DataCommand);
      }
      return Pass;
    }

    method WriteChipSelect(low: bool) returns (r: Outcome<DisplayError>)
      modifies `chip, `faults
      ensures r.Pass? ==> chip == old(chip).(selected := low)
      ensures r.Fail? ==> r.error == ChipSelect && chip == old(chip).(selected := chip.selected)
      ensures faults == old(faults) + if r.Pass? then 0 else 1
    {
      var ok: bool, moves: bool := *, *;
      if ok || moves {
        chip := chip.(selected := low);
      }
      if !ok {
        faults := faults + 1;
        return Fail(ChipSelect);
      }
      return Pass;
    }

    // ----- commands and data inside a transaction -----

    method WriteCommandActive(command: byte, data: seq<byte>) returns (r: Outcome<DisplayError>)
      requires chip.selected
      modifies `chip, `faults
      ensures r.Pass? ==> chip == if data == [] then Commanded(old(chip), command)
                                  else ReceiveAll(Commanded(old(chip), command).(dataMode := true), data)
      ensures (data == [] || command != MEMORY_WRITE) ==> chip.frame == old(chip).frame && chip.selected
      ensures r.Fail? ==> r.error == Bus || r.error == DataCommand
      ensures faults == old(faults) + if r.Pass? then 0 else 1
    {
      hide ReceiveAll;
      r := SetDataCommand(false);
      if r.Fail? {
        return;
      }
      ghost var sent;
      r, sent := WriteBus([command]);
      NothingSent(old(chip).(dataMode := false));
      OneMoreByte(old(chip).(dataMode := false), [command], 0);
      assert [command][..1] == [command] && [command][..0] == [];
      if r.Fail? {
        return;
      }
      assert chip == Commanded(old(chip), command);
      if data == [] {
        return;
      }
      r := SetDataCommand(true);
      if r.Fail? {
        return;
      }
      ghost var before := chip;
      r, sent := WriteBus(data);
      if command != MEMORY_WRITE {
        ParametersKeepFrame(before, data[..sent]);
      }
      assert r.Pass? ==> data[..sent] == data;
    }

    method WriteWindowActive(x: nat, y: nat, w: nat, h: nat) returns (r: Outcome<DisplayError>)
      requires chip.selected && panel.ValidWindow(x, y, w, h)
      modifies `chip, `faults
      ensures chip.frame == old(chip).frame && chip.selected
      ensures r.Pass? ==> Windowed(chip, panel.columnOffset + x, panel.rowOffset + y, w, h)
      ensures r.Fail? ==> r.error == Bus || r.error == DataCommand
      ensures faults == old(faults) + if r.Pass? then 0 else 1
    {
      hide ReceiveAll, AddressData;
      r := WriteCommandActive(COLUMN_ADDRESS_SET, AddressData((panel.columnOffset + x) % U16_LIMIT, w));
      if r.Fail? {
        return;
      }
      ColumnsSet(Commanded(old(chip), COLUMN_ADDRESS_SET).(dataMode := true), panel.columnOffset + x, w);
      ghost var c := chip;
      r := WriteCommandActive(ROW_ADDRESS_SET, AddressData((panel.rowOffset + y) % U16_LIMIT, h));
      if r.Pass? {
        RowsSet(Commanded(c, ROW_ADDRESS_SET).(dataMode := true), panel.rowOffset + y, h);
      }
    }

    /** Pixel data behind a memory-write command, as much of it as there is. */
    method WriteDataActive(pixels: seq<byte>, ghost width: nat, ghost height: nat)
      returns (r: Outcome<DisplayError>, ghost done: nat)
      requires Streaming(chip.(dataMode := true), width, height) && chip.high.None?
      requires chip.column == chip.firstColumn && chip.row == chip.firstRow
      modifies `chip, `faults
      ensures 2 * done <= |pixels| && (r.Pass? ==> done == |pixels| / 2)
      ensures |pixels| == 0 ==> r == Fail(InvalidArgument) && chip == old(chip)
      ensures |pixels| > 0 && r.Fail? ==> r.error == Bus || r.error == DataCommand
      ensures faults == old(faults) + if r.Pass? || |pixels| == 0 then 0 else 1
      ensures chip.frame
           == Painted(old(chip).frame, old(chip).firstColumn, old(chip).firstRow, width, height, pixels, done)
    {
      hide ReceiveAll, Painted, Cell;
      PaintedStarts(chip.frame, chip.firstColumn, chip.firstRow, width, height, pixels);
      done := 0;
      if |pixels| == 0 {
        return Fail(InvalidArgument), 0;
      }
      r := SetDataCommand(true);
      if r.Fail? {
        return;
      }
      ghost var c, sent := chip, 0;
      r, sent := WriteBus(pixels);
      Streams(c, width, height, pixels, sent);
      done := sent / 2;
    }

    // ----- transactions -----

    /** The first half of `transaction`: checks, bus setup, chip select. */
    method Begin() returns (r: Outcome<DisplayError>)
      modifies `chip, `faults
      ensures chip.frame == old(chip).frame && (r.Pass? ==> chip.selected && configurationValid)
      ensures r == Fail(InvalidArgument) <==> !configurationValid
      ensures r == Fail(InvalidArgument) ==> chip == old(chip)
      ensures faults == old(faults) + if r.Pass? || !configurationValid then 0 else 1
      ensures r.Fail? ==> r.error in {InvalidArgument, Bus, ChipSelect}
      ensures SameWindow(old(chip), chip)
    {
      if !configurationValid {
        return Fail(InvalidArgument);
      }
      var busConfigured: bool := *;
      if !busConfigured {
        faults := faults + 1;
        return Fail(Bus);
      }
      r := WriteChipSelect(true);
    }

    /** The second half: flush and release, whatever the outcome so far. */
    method End(value: Outcome<DisplayError>) returns (r: Outcome<DisplayError>)
      modifies `chip, `faults
      ensures chip.frame == old(chip).frame && (value.Fail? ==> r == value)
      ensures value.Pass? && r.Fail? ==> r.error == Bus || r.error == ChipSelect
      ensures r.Pass? ==> !chip.selected
      ensures faults >= old(faults)
      ensures value.Pass? ==> (faults == old(faults) <==> r.Pass?)
      ensures SameWindow(old(chip), chip)
    {
      var flushed: bool := *;
      if !flushed {
        faults := faults + 1;
      }
      var released := WriteChipSelect(false);
      if value.Fail? {
        return value;
      }
      if !flushed {
        return Fail(Bus);
      }
      return released;
    }

    /** `set_address_window`: exactly the window asked for, and no pixel. */
    method SetAddressWindow(x: nat, y: nat, w: nat, h: nat) returns (r: Outcome<DisplayError>)
      modifies `chip, `faults
      ensures !initialized ==> r == Fail(NotInitialized)
      ensures initialized ==>
                (r == Fail(InvalidArgument) <==>
                   || !configurationValid || w == 0 || h == 0 || x + w > panel.width || y + h > panel.height
                      || panel.columnOffset + x + w > U16_LIMIT || panel.rowOffset + y + h > U16_LIMIT)
      ensures r in {Fail(NotInitialized), Fail(InvalidArgument)} ==> chip == old(chip) && faults == old(faults)
      ensures chip.frame == old(chip).frame
      ensures r.Pass? ==> Windowed(chip, panel.columnOffset + x, panel.rowOffset + y, w, h) && !chip.selected
      ensures initialized && r.Fail? && r.error != InvalidArgument ==> faults > old(faults)
      ensures r.Pass? ==> faults == old(faults)
    {
      hide ReceiveAll, Receive;
      if !initialized {
        return Fail(NotInitialized);
      }
      if !panel.ValidWindow(x, y, w, h) {
        return Fail(InvalidArgument);
      }
      r := Begin();
      if r.Fail? {
        return;
      }
      r := WriteWindowActive(x, y, w, h);
      r := End(r);
    }

    /**
      `write_pixels`: into the window set before, row by row from its start; on any
      outcome a prefix of the pixels in order and nothing else. More pixels than the
      window has start over at its beginning.
     */
    method WritePixels(pixels: seq<byte>, ghost w: nat, ghost h: nat)
      returns (r: Outcome<DisplayError>, ghost done: nat)
      requires w > 0 && h > 0 && Windowed(chip, chip.firstColumn, chip.firstRow, w, h)
      modifies `chip, `faults
      ensures !initialized ==> r == Fail(NotInitialized)
      ensures initialized ==>
                (r == Fail(InvalidArgument) <==> !configurationValid || |pixels| == 0 || |pixels| % 2 != 0)
      ensures initialized && r.Fail? && r.error != InvalidArgument ==> faults > old(faults)
      ensures r.Pass? ==> faults == old(faults)
      ensures !initialized || |pixels| == 0 || |pixels| % 2 != 0 ==> done == 0 && chip == old(chip)
      ensures 2 * done <= |pixels| && (r.Pass? ==> 2 * done == |pixels| && !chip.selected)
      ensures chip.frame
           == Painted(old(chip).frame, old(chip).firstColumn, old(chip).firstRow, w, h, pixels, done)
    {
      hide ReceiveAll, Painted, Cell, Receive;
      done := 0;
      PaintedStarts(chip.frame, chip.firstColumn, chip.firstRow, w, h, pixels);
      if !initialized {
        return Fail(NotInitialized), 0;
      }
      if |pixels| == 0 || |pixels| % 2 != 0 {
        return Fail(InvalidArgument), 0;
      }
      r := Begin();
      if r.Fail? {
        return;
      }
      r, done := StreamActive(pixels, w, h);
      r := End(r);
    }

    /** The memory-write command and the pixels behind it. */
    method StreamActive(pixels: seq<byte>, ghost w: nat, ghost h: nat)
      returns (r: Outcome<DisplayError>, ghost done: nat)
      requires chip.selected && w > 0 && h > 0 && Windowed(chip, chip.firstColumn, chip.firstRow, w, h)
      modifies `chip, `faults
      ensures 2 * done <= |pixels| && (r.Pass? ==> done == |pixels| / 2)
      ensures r.Fail? ==> r.error == Bus || r.error == DataCommand || (|pixels| == 0 && r.error == InvalidArgument)
      ensures |pixels| > 0 ==> faults == old(faults) + if r.Pass? then 0 else 1
      ensures chip.frame
           == Painted(old(chip).frame, old(chip).firstColumn, old(chip).firstRow, w, h, pixels, done)
    {
      hide ReceiveAll, Painted, Cell, Receive;
      done := 0;
      PaintedStarts(chip.frame, chip.firstColumn, chip.firstRow, w, h, pixels);
      ghost var before := chip;
      r := WriteCommandActive(MEMORY_WRITE, []);
      if r.Fail? {
        return;
      }
      ReadyToStream(before);
      r, done := WriteDataActive(pixels, w, h);
    }

    /**
      `write_rect`: row by row into exactly the window, on any outcome a prefix of the
      pixels in order and nothing else.
     */
    method WriteRect(x: nat, y: nat, w: nat, h: nat, pixels: seq<byte>)
      returns (r: Outcome<DisplayError>, ghost done: nat)
      modifies `chip, `faults
      ensures !initialized ==> r == Fail(NotInitialized)
      ensures initialized ==>
                (r == Fail(InvalidArgument) <==>
                   || !configurationValid || |pixels| != 2 * (w * h)
                   || w == 0 || h == 0 || x + w > panel.width || y + h > panel.height
                      || panel.columnOffset + x + w > U16_LIMIT || panel.rowOffset + y + h > U16_LIMIT)
      ensures r in {Fail(NotInitialized), Fail(InvalidArgument)} ==>
                chip == old(chip) && faults == old(faults) && done == 0
      ensures r.Pass? ==> done == w * h && !chip.selected
      ensures initialized && r.Fail? && r.error != InvalidArgument ==> faults > old(faults)
      ensures r.Pass? ==> faults == old(faults)
      ensures w > 0 && h > 0 && |pixels| == 2 * (w * h) ==>
                && done <= w * h
                && chip.frame == Painted(old(chip).frame, panel.columnOffset + x, panel.rowOffset + y, w, h, pixels, done)
    {
      hide ReceiveAll, Painted, Cell, Receive;
      done := 0;
      if w > 0 && h > 0 {
        PaintedStarts(chip.frame, panel.columnOffset + x, panel.rowOffset + y, w, h, pixels);
      }
      if !initialized {
        return Fail(NotInitialized), 0;
      }
      if !panel.ValidWindow(x, y, w, h) || |pixels| != 2 * Area(w, h) {
        return Fail(InvalidArgument), 0;
      }
      r := Begin();
      if r.Fail? {
        return;
      }
      r := WriteWindowActive(x, y, w, h);
      if r.Fail? {
        r := End(r);
        return;
      }
      r, done := StreamActive(pixels, w, h);
      r := End(r);
    }

    static lemma ReadyToStream(c: Controller)
      requires c.selected
      ensures var d := Commanded(c, MEMORY_WRITE);
              && d.selected && d.command == MEMORY_WRITE && d.high.None? && d.frame == c.frame
              && d.column == d.firstColumn == c.firstColumn && d.row == d.firstRow == c.firstRow
              && d.lastColumn == c.lastColumn && d.lastRow == c.lastRow
    {
    }

    /** The inner loop of `fill_rect`: one chunk of columns, row by row. */
    method FillRows(ghost f: Frame, x: nat, y: nat, width: nat, height: nat, color: nat,
                    xOffset: nat, chunk: nat, row: seq<byte>)
      returns (r: Outcome<DisplayError>)
      requires initialized && panel.ValidWindow(x, y, width, height)
      requires 0 < chunk && xOffset + chunk <= width && |row| == 2 * chunk && Uniform(row, color)
      requires FilledSoFar(f, chip.frame, color, panel.columnOffset + x, panel.rowOffset + y, height, xOffset, 0, 0)
      modifies `chip, `faults
      ensures r.Pass? ==> configurationValid && !chip.selected && faults == old(faults)
      ensures r.Fail? ==> if r.error == InvalidArgument then !configurationValid && chip == old(chip)
                          else r.error != NotInitialized && configurationValid && faults > old(faults)
      ensures var left, top := panel.columnOffset + x, panel.rowOffset + y;
              && (r.Pass? ==> FilledSoFar(f, chip.frame, color, left, top, height, xOffset, chunk, height))
              && (r.Fail? ==> RectPartlyFilled(f, chip.frame, color, left, top, width, height))
    {
      hide RectFilled, FilledSoFar, RectPartlyFilled, Uniform, RowWith, Painted, At;
      ghost var left, top := panel.columnOffset + x, panel.rowOffset + y;
      OneRow(chunk);
      ChunkBegins(f, chip.frame, color, left, top, height, xOffset, chunk);
      for rowIndex := 0 to height
        invariant faults == old(faults) && if rowIndex == 0 then chip == old(chip) else configurationValid && !chip.selected
        invariant FilledSoFar(f, chip.frame, color, left, top, height, xOffset, chunk, rowIndex)
      {
        ghost var before, done := chip.frame, 0;
        r, done := WriteRect((x + xOffset) % U16_LIMIT, (y + rowIndex) % U16_LIMIT, chunk, 1, row);
        RowPainted(before, left + xOffset, top + rowIndex, chunk, row, color, done);
        if r.Fail? {
          RowStopped(f, before, chip.frame, color, left, top, width, height, xOffset, chunk, rowIndex, done);
          return;
        }
        RowFilled(f, before, chip.frame, color, left, top, height, xOffset, chunk, rowIndex);
      }
      return Pass;
    }

    /**
      `fill_rect`: on success every pixel of the rectangle has the colour and no other
      pixel has changed; a failure part-way has touched no pixel outside and has left
      every pixel inside either as it was or with the colour.
     */
    method FillRect(x: nat, y: nat, width: nat, height: nat, color: nat) returns (r: Outcome<DisplayError>)
      requires color < U16_LIMIT && width < U16_LIMIT && height < U16_LIMIT
      modifies `chip, `faults
      ensures !initialized ==> r == Fail(NotInitialized)
      ensures initialized ==>
                (r == Fail(InvalidArgument) <==>
                   || !configurationValid || width == 0 || height == 0 || x + width > panel.width || y + height > panel.height
                      || panel.columnOffset + x + width > U16_LIMIT || panel.rowOffset + y + height > U16_LIMIT)
      ensures r in {Fail(NotInitialized), Fail(InvalidArgument)} ==> chip == old(chip)
      ensures r.Pass? ==> !chip.selected
      ensures initialized && r.Fail? && r.error != InvalidArgument ==> faults > old(faults)
      ensures r.Pass? ==> faults == old(faults)
      ensures var left, top := panel.columnOffset + x, panel.rowOffset + y;
                && (r.Pass? ==> RectFilled(old(chip).frame, chip.frame, color, left, top, width, height))
                && (r.Fail? ==> RectPartlyFilled(old(chip).frame, chip.frame, color, left, top, width, height))
    {
      hide RectFilled, FilledSoFar, RectPartlyFilled;
      Untouched(chip.frame, color, panel.columnOffset + x, panel.rowOffset + y, width, height);
      if !initialized {
        return Fail(NotInitialized);
      }
      if !panel.ValidWindow(x, y, width, height) {
        return Fail(InvalidArgument);
      }
      ghost var f, left, top := chip.frame, panel.columnOffset + x, panel.rowOffset + y;
      var xOffset := 0;
      while xOffset < width
        invariant initialized && xOffset <= width && faults == old(faults)
        invariant if xOffset == 0 then chip == old(chip) else configurationValid && !chip.selected
        invariant FilledSoFar(f, chip.frame, color, left, top, height, xOffset, 0, 0)
        decreases width - xOffset
      {
        var remaining := width - xOffset;
        var chunk := if remaining < 256 then remaining else 256;
        var row := FillRow(chunk, color);
        r := FillRows(f, x, y, width, height, color, xOffset, chunk, row);
        if r.Fail? {
          return;
        }
        ChunkEnds(f, chip.frame, color, left, top, height, xOffset, chunk);
        xOffset := (xOffset + chunk) % U16_LIMIT;
      }
      AllFilled(f, chip.frame, color, left, top, width, height);
      return Pass;
    }

    /** The row buffer, in controller order. */
    method FillRow(chunk: nat, color: nat) returns (row: seq<byte>)
      requires chunk <= 256 && color < U16_LIMIT
      ensures |row| == 2 * chunk && Uniform(row, color)
      ensures forall k :: 0 <= k < chunk ==> row[2 * k] == color / 256 && row[2 * k + 1] == color % 256
    {
      var buffer := new byte[512](_ => 0);
      var high, low := color / 256, color % 256;
      for pixel := 0 to chunk
        invariant forall k :: 0 <= k < pixel ==> buffer[2 * k] == high && buffer[2 * k + 1] == low
      {
        buffer[2 * pixel] := high;
        buffer[2 * pixel + 1] := low;
      }
      row := buffer[..2 * chunk];
    }
  }

  // ---------- what a filled rectangle is ----------

  predicate Inside(p: Pixel, left: nat, top: nat, width: nat, height: nat) {
    left <= p.0 < left + width && top <= p.1 < top + height
  }

  ghost predicate RectFilled(f: Frame, g: Frame, color: nat, left: nat, top: nat, width: nat, height: nat) {
    forall p: Pixel :: At(g, p) == if Inside(p, left, top, width, height) then Some(color) else At(f, p)
  }

  ghost predicate RectPartlyFilled(f: Frame, g: Frame, color: nat, left: nat, top: nat, width: nat, height: nat) {
    forall p: Pixel :: At(g, p) == At(f, p) || (Inside(p, left, top, width, height) && At(g, p) == Some(color))
  }

  /** The columns before `done` are filled, and the first `rows` rows of the chunk behind them. */
  ghost predicate FilledSoFar(f: Frame, g: Frame, color: nat, left: nat, top: nat, height: nat,
                              done: nat, chunk: nat, rows: nat)
  {
    forall p: Pixel ::
      At(g, p) == if Inside(p, left, top, done, height) || Inside(p, left + done, top, chunk, rows)
                  then Some(color) else At(f, p)
  }

  ghost predicate Uniform(row: seq<byte>, color: nat) {
    forall k :: 0 <= k && 2 * k + 1 < |row| ==> Color(row, k) == color
  }

  lemma OneRow(chunk: nat)
    ensures Area(chunk, 1) == chunk
  {
  }

  lemma Untouched(f: Frame, color: nat, left: nat, top: nat, width: nat, height: nat)
    ensures FilledSoFar(f, f, color, left, top, height, 0, 0, 0)
    ensures RectPartlyFilled(f, f, color, left, top, width, height)
  {
  }

  lemma ChunkBegins(f: Frame, g: Frame, color: nat, left: nat, top: nat, height: nat, done: nat, chunk: nat)
    requires FilledSoFar(f, g, color, left, top, height, done, 0, 0)
    ensures FilledSoFar(f, g, color, left, top, height, done, chunk, 0)
  {
    hide At;
  }

  lemma ChunkEnds(f: Frame, g: Frame, color: nat, left: nat, top: nat, height: nat, done: nat, chunk: nat)
    requires FilledSoFar(f, g, color, left, top, height, done, chunk, height)
    ensures FilledSoFar(f, g, color, left, top, height, done + chunk, 0, 0)
  {
    hide At;
  }

  lemma AllFilled(f: Frame, g: Frame, color: nat, left: nat, top: nat, width: nat, height: nat)
    requires FilledSoFar(f, g, color, left, top, height, width, 0, 0)
    ensures RectFilled(f, g, color, left, top, width, height)
  {
    hide At;
  }

  /** One row of the window written: the first `done` pixels of it and no others have the colour. */
  ghost predicate RowWith(f: Frame, g: Frame, color: nat, left: nat, row: nat, done: nat) {
    forall p: Pixel :: At(g, p) == if Inside(p, left, row, done, 1) then Some(color) else At(f, p)
  }

  lemma RowPainted(f: Frame, left: nat, row: nat, chunk: nat, pixels: seq<byte>, color: nat, done: nat)
    requires 0 < chunk && |pixels| == 2 * chunk && done <= chunk && Uniform(pixels, color)
    ensures RowWith(f, Painted(f, left, row, chunk, 1, pixels, done), color, left, row, done)
  {
    hide Painted, At, Area, Cell;
    OneRow(chunk);
    var g := Painted(f, left, row, chunk, 1, pixels, done);
    forall p: Pixel
      ensures At(g, p) == if Inside(p, left, row, done, 1) then Some(color) else At(f, p)
    {
      if Inside(p, left, row, chunk, 1) {
        CellOfRow(left, row, chunk, p.0 - left);
        PaintedAt(f, left, row, chunk, 1, pixels, done, p.0 - left);
      } else {
        PaintedElsewhere(f, left, row, chunk, 1, pixels, done, p);
      }
    }
  }

  lemma CellOfRow(left: nat, row: nat, width: nat, k: nat)
    requires k < width
    ensures Cell(left, row, width, 1, k) == (left + k, row)
  {
    QuotientIsUnique(k, width, 0, k);
    QuotientIsUnique(0, 1, 0, 0);
  }

  lemma RowFilled(f: Frame, g: Frame, h: Frame, color: nat, left: nat, top: nat, height: nat,
                  done: nat, chunk: nat, rows: nat)
    requires FilledSoFar(f, g, color, left, top, height, done, chunk, rows)
    requires RowWith(g, h, color, left + done, top + rows, chunk)
    ensures FilledSoFar(f, h, color, left, top, height, done, chunk, rows + 1)
  {
    hide At;
  }

  lemma RowStopped(f: Frame, g: Frame, h: Frame, color: nat, left: nat, top: nat, width: nat, height: nat,
                   done: nat, chunk: nat, rows: nat, written: nat)
    requires FilledSoFar(f, g, color, left, top, height, done, chunk, rows)
    requires RowWith(g, h, color, left + done, top + rows, written)
    requires done + chunk <= width && rows < height && written <= chunk
    ensures RectPartlyFilled(f, h, color, left, top, width, height)
  {
    hide At;
  }
}
