/** The LCD6x20 driver: a six-line character LCD made of two three-line
    halves, each with its own strobe line (E1, E2), driven in 4-bit mode
    through an MCP23008 port expander. The expander's transport is the
    driver's `log`; what the LCD does with the bytes is not modelled. */
module Lcd6x20 {
  import opened Transport
  import opened LcdEncoding
  import opened LcdText
  import opened Seqs

  // Backlight states of the expander's top port bit
  const LED_ON: Byte := 0x80

  // Strobe lines of the two halves
  const E1: Byte := 0x04
  const E2: Byte := 0x01

  // LCD commands
  const ENTRYMODESET: Byte := 0x04
  const DISPLAYCONTROL: Byte := 0x08
  const CURSORSHIFT: Byte := 0x10
  const SETCGRAMADDR: Byte := 0x40
  const SETDDRAMADDR: Byte := 0x80

  // Flags of displaycontrol
  const DISPLAYON: Byte := 0x04
  const CURSORON: Byte := 0x02
  const BLINKON: Byte := 0x01

  // Flags of displaymode
  const ENTRYLEFT: Byte := 0x02
  const ENTRYSHIFTINCREMENT: Byte := 0x01

  // Flags of displayshift
  const DISPLAYMOVE: Byte := 0x08
  const CURSORMOVE: Byte := 0x00
  const MOVERIGHT: Byte := 0x04
  const MOVELEFT: Byte := 0x00

  /** The command message() sends before every segment after the first. */
  const SECOND_LINE: Byte := 0xC0

  /** DDRAM start address of each of the six rows. */
  const ROW_OFFSETS: seq<Byte> := [0x00, 0x20, 0x40, 0x00, 0x20, 0x40]

  /** Strobe line of each of the six rows. */
  const ROW_CHIP_SELECT: seq<Byte> := [E1, E1, E1, E2, E2, E2]

  /** `field` with the bits of `flag` set and every other bit kept. */
  function SetFlag(field: Byte, flag: Byte): (r: Byte)
    ensures r & flag == flag
    ensures r & !flag == field & !flag
  {
    field | flag
  }

  /** `field` with the bits of `flag` cleared and every other bit kept. */
  function ClearFlag(field: Byte, flag: Byte): (r: Byte)
    ensures r & flag == 0
    ensures r & !flag == field & !flag
  {
    field & !flag
  }

  /** `field` with the bits of `flag` inverted and every other bit kept. */
  function ToggleFlag(field: Byte, flag: Byte): (r: Byte)
    ensures r & flag == !field & flag
    ensures r & !flag == field & !flag
  {
    field ^ flag
  }

  /** Toggling twice restores the field. */
  lemma ToggleTwice(field: Byte, flag: Byte)
    ensures ToggleFlag(ToggleFlag(field, flag), flag) == field
  {
  }

  /** Python's indexing of a six-entry tuple: indices -6..-1 count from the
      end, anything else outside 0..5 raises IndexError. */
  function TableIndex(r: int): (i: Option<nat>)
    ensures i.Some? <==> -6 <= r < 6
    ensures i.Some? ==> i.value < 6 && i.value % 6 == r % 6
  {
    if 0 <= r < 6 then Some(r) else if -6 <= r < 0 then Some(r + 6) else None
  }

  /** The row offset table: rows 0..2 and 3..5 start at 0x00, 0x20, 0x40. */
  function RowOffset(i: nat): (o: Byte)
    requires i < 6
    ensures o as int == 0x20 * (i % 3)
  {
    ROW_OFFSETS[i]
  }

  /** The row strobe table: rows 0..2 sit on E1, rows 3..5 on E2. */
  function RowChipSelect(i: nat): (cs: Byte)
    requires i < 6
    ensures cs == if i < 3 then E1 else E2
  {
    ROW_CHIP_SELECT[i]
  }

  /** setCursor's row clamping: a row above `numlines` becomes
      `numlines - 1`, a negative row becomes 0, and every other row,
      `numlines` itself included, is kept. */
  function ClampRow(r: int, numlines: int): (c: int)
    ensures r > numlines ==> c == numlines - 1
    ensures 0 <= r <= numlines ==> c == r
    ensures r < 0 && r <= numlines ==> c == 0
    ensures numlines >= 1 ==> 0 <= c <= numlines
  {
    if r > numlines then numlines - 1 else if r < 0 then 0 else r
  }

  /** The clamp lets `numlines` itself through: on a driver begun with six
      lines, row 6 reaches the tables and raises IndexError. */
  lemma ClampKeepsNumlines(numlines: int)
    requires numlines >= 0
    ensures ClampRow(numlines, numlines) == numlines
    ensures numlines >= 6 ==> TableIndex(ClampRow(numlines, numlines)).None?
  {
  }

  /** The clamp as evidently intended: every row at or above `numlines`
      becomes the last line. */
  function ClampRowIntended(r: int, numlines: int): (c: int)
    ensures 0 <= r < numlines ==> c == r
    ensures r >= numlines && numlines >= 1 ==> c == numlines - 1
    ensures r < 0 ==> c == 0
    ensures numlines >= 1 ==> 0 <= c < numlines
  {
    if r >= numlines && numlines >= 1 then numlines - 1 else if r < 0 then 0 else r
  }

  /** With the intended clamp, no row of a display of one to six lines
      reaches outside the tables. */
  lemma ClampIntendedInTables(r: int, numlines: int)
    requires 1 <= numlines <= 6
    ensures TableIndex(ClampRowIntended(r, numlines)) == Some(ClampRowIntended(r, numlines))
  {
  }

  /** The DDRAM address command for column `col` of table row `i`, computed
      on 8 bits: the address bits carry the column plus the row's start
      address, exactly so while that sum fits in seven bits. */
  function CursorCommand(col: Byte, i: nat): (c: Byte)
    requires i < 6
    ensures c & SETDDRAMADDR == SETDDRAMADDR
    ensures c & 0x7F == (col + RowOffset(i)) & 0x7F
    ensures col as int + RowOffset(i) as int < 0x80 ==> (c & 0x7F) as int == col as int + RowOffset(i) as int
  {
    var o := RowOffset(i);
    assert o == 0x00 || o == 0x20 || o == 0x40 by {
      assert ROW_OFFSETS[i] in ROW_OFFSETS;
    }
    SETDDRAMADDR | (col + o)
  }

  /** The CGRAM address command for glyph slot `location`: Python's
      `location & 7` is the Euclidean remainder by 8, also for negative
      locations. */
  function CgramCommand(location: int): (c: Byte)
    ensures c & 0xC7 == SETCGRAMADDR
    ensures ((c >> 3) & 7) as int == location % 8
  {
    SETCGRAMADDR | (((location % 8) as Byte) << 3)
  }

  /** What write_lcd sends for one command byte: sequential mode on, the
      byte's four port states in one block write, sequential mode off, and a
      15 ms pause after clear and return home. */
  function Command(cs: Byte, c: Byte, led: Byte): seq<Event>
  {
    [WriteRegister(IOCON, 0x20), WriteRegisters(GPIO, Out4(cs, led, c)), WriteRegister(IOCON, 0)]
    + Pause(c)
  }

  /** The pause after a command that the LCD needs time to complete. */
  function Pause(c: Byte): seq<Event>
  {
    if c == CLEARDISPLAY || c == RETURNHOME then [Sleep(15000)] else []
  }

  /** write_lcd given one byte in command mode sends exactly Command,
      whatever the column count. */
  lemma CommandIsWriteLcd(cs: Byte, c: Byte, led: Byte, cols: int)
    ensures WriteLcdEvents(cs, Single(c), false, led, cols) == Command(cs, c, led)
  {
    assert GpioWrites([Out4(cs, led, c)]) == [WriteRegisters(GPIO, Out4(cs, led, c))] by {
      assert [Out4(cs, led, c)][..0] == [];
    }
  }

  /** One command sent to E1 and then to E2. */
  function ToBoth(c: Byte, led: Byte): seq<Event>
  {
    Command(E1, c, led) + Command(E2, c, led)
  }

  /** The eleven expander registers IODIR..OLAT in one block: all zero
      except GPIO and OLAT. */
  function ExpanderImage(gpio: Byte): (regs: seq<Byte>)
    ensures |regs| == 11
    ensures forall k :: 0 <= k < 9 ==> regs[k] == 0
    ensures regs[9] == gpio && regs[10] == gpio
  {
    [0, 0, 0, 0, 0, 0, 0, 0, 0, gpio, gpio]
  }

  /** The log `before` extended by the 4-bit initialisation commands the
      constructor sends to one half. */
  function FourBitInit(before: seq<Event>, cs: Byte, led: Byte): seq<Event>
  {
    before + Command(cs, 0x33, led) + Command(cs, 0x32, led) + Command(cs, 0x24, led)
    + Command(cs, 0x09, led) + Command(cs, 0x20, led)
  }

  /** The log `before` extended by the LCD power-on sequence the
      constructor sends to one half: the 4-bit initialisation, then clear,
      the shift, entry mode and display settings, and return home. */
  function PowerOn(before: seq<Event>, cs: Byte, led: Byte, shift: Byte, mode: Byte, control: Byte): seq<Event>
  {
    DisplaySetup(FourBitInit(before, cs, led), cs, led, shift, mode, control)
  }

  /** The log `before` extended by the last five power-on commands: clear,
      the shift, entry mode and display settings, and return home. */
  function DisplaySetup(before: seq<Event>, cs: Byte, led: Byte, shift: Byte, mode: Byte, control: Byte): seq<Event>
  {
    before + Command(cs, CLEARDISPLAY, led)
    + Command(cs, CURSORSHIFT | shift, led) + Command(cs, ENTRYMODESET | mode, led)
    + Command(cs, DISPLAYCONTROL | control, led) + Command(cs, RETURNHOME, led)
  }

  /** Everything the constructor sends: expander set-up, then the power-on
      sequence to E1 and to E2. */
  function InitEvents(): seq<Event>
  {
    var setup := [WriteRegister(IODIR, 0), WriteRegisters(IODIR, ExpanderImage(LED_ON)), WriteRegister(IOCON, 0x20)];
    var shift := CURSORMOVE | MOVERIGHT;
    PowerOn(PowerOn(setup, E1, LED_ON, shift, ENTRYLEFT, DISPLAYON), E2, LED_ON, shift, ENTRYLEFT, DISPLAYON)
  }

  /** Segments written one after another by `write`, with `sep` before
      every segment but the first. */
  function Joined(lines: seq<seq<Byte>>, sep: seq<Event>, write: seq<Byte> -> seq<Event>): seq<Event>
  {
    if lines == [] then []
    else Joined(lines[..|lines| - 1], sep, write) + Separator(|lines| - 1, sep) + write(lines[|lines| - 1])
  }

  /** What is written before segment `i`. */
  function Separator(i: nat, sep: seq<Event>): seq<Event>
  {
    if i > 0 then sep else []
  }

  /** One more segment extends what has been written. */
  lemma JoinedStep(start: seq<Event>, lines: seq<seq<Byte>>, i: nat, sep: seq<Event>, write: seq<Byte> -> seq<Event>)
    requires i < |lines|
    ensures start + Joined(lines[..i], sep, write) + Separator(i, sep) + write(lines[i])
            == start + Joined(lines[..i + 1], sep, write)
  {
    var m := Joined(lines[..i], sep, write);
    assert Joined(lines[..i + 1], sep, write) == m + Separator(i, sep) + write(lines[i]) by {
      var prefix := lines[..i + 1];
      assert prefix[..i] == lines[..i];
      assert prefix[i] == lines[i];
    }
    Assoc(start, m, Separator(i, sep));
    Assoc(start, m + Separator(i, sep), write(lines[i]));
  }

  /** Two runs of segments written back to back are separated by exactly
      one `sep`. */
  lemma {:induction false} JoinedAppend(xs: seq<seq<Byte>>, ys: seq<seq<Byte>>, sep: seq<Event>, write: seq<Byte> -> seq<Event>)
    requires |xs| >= 1 && |ys| >= 1
    ensures Joined(xs + ys, sep, write) == Joined(xs, sep, write) + sep + Joined(ys, sep, write)
    decreases |ys|
  {
    var zs := xs + ys;
    var init := ys[..|ys| - 1];
    var w := write(ys[|ys| - 1]);
    assert Joined(zs, sep, write) == Joined(xs + init, sep, write) + sep + w by {
      assert zs[..|zs| - 1] == xs + init;
      assert zs[|zs| - 1] == ys[|ys| - 1];
    }
    if |ys| == 1 {
      assert xs + init == xs;
      assert Joined(ys, sep, write) == w by {
        assert init == [];
      }
    } else {
      JoinedAppend(xs, init, sep, write);
      var head := Joined(xs, sep, write) + sep;
      Assoc(head, Joined(init, sep, write), sep);
      Assoc(head, Joined(init, sep, write) + sep, w);
    }
  }

  /** What message() writes for one segment: a character-mode text write
      to E1. */
  function SegmentWriter(led: Byte, cols: int): seq<Byte> -> seq<Event>
  {
    line => WriteLcdEvents(E1, Text(line), true, led, cols)
  }

  /** What message() sends for its segments: each segment as a text write
      to E1 in character mode, every one after the first preceded by one
      second-line command to E1. */
  function MessageEvents(lines: seq<seq<Byte>>, led: Byte, cols: int): seq<Event>
  {
    Joined(lines, Command(E1, SECOND_LINE, led), SegmentWriter(led, cols))
  }

  /** Two runs of segments sent back to back are separated by exactly one
      second-line command. */
  lemma MessageEventsAppend(xs: seq<seq<Byte>>, ys: seq<seq<Byte>>, led: Byte, cols: int)
    requires |xs| >= 1 && |ys| >= 1
    ensures MessageEvents(xs + ys, led, cols)
            == MessageEvents(xs, led, cols) + Command(E1, SECOND_LINE, led) + MessageEvents(ys, led, cols)
  {
    JoinedAppend(xs, ys, Command(E1, SECOND_LINE, led), SegmentWriter(led, cols));
  }

  /** A newline in a message splits it into the messages on either side,
      with one second-line command between them. */
  lemma MessageAtNewline(a: seq<Byte>, b: seq<Byte>, led: Byte, cols: int)
    ensures MessageEvents(Split(a + [NEWLINE] + b), led, cols)
            == MessageEvents(Split(a), led, cols) + Command(E1, SECOND_LINE, led) + MessageEvents(Split(b), led, cols)
  {
    SplitAtNewline(a, b);
    MessageEventsAppend(Split(a), Split(b), led, cols);
  }

  /** A message without newlines is one character-mode text write to E1. */
  lemma MessageWithoutNewline(t: seq<Byte>, led: Byte, cols: int)
    requires NEWLINE !in t
    ensures MessageEvents(Split(t), led, cols) == WriteLcdEvents(E1, Text(t), true, led, cols)
  {
    SplitPlain(t);
    JoinedSingle(t, Command(E1, SECOND_LINE, led), SegmentWriter(led, cols));
  }

  /** A single segment is written alone. */
  lemma JoinedSingle(t: seq<Byte>, sep: seq<Event>, write: seq<Byte> -> seq<Event>)
    ensures Joined([t], sep, write) == write(t)
  {
    assert [t][..0] == [];
    var w := write(t);
    assert [] + [] + w == w;
  }

  class Lcd {
    var led: Byte            // backlight bits under every nibble
    var porta: Byte          // the port state stop() restores
    var displaycontrol: Byte // display, cursor and blink on/off
    var displaymode: Byte    // entry direction and autoscroll
    var displayshift: Byte   // last scroll command
    var cols: int
    var numlines: int
    var currline: int
    /** Whether begin() has run: cols and numlines exist only from then on. */
    ghost var begun: bool
    /** Every call into the transport so far. */
    var log: seq<Event>

    /** The constructor: expander registers zeroed with the backlight on,
        sequential mode set, and the power-on sequence sent to both halves. */
    constructor ()
      ensures led == LED_ON && porta == LED_ON
      ensures displaycontrol == DISPLAYON && displaymode == ENTRYLEFT && displayshift == CURSORMOVE | MOVERIGHT
      ensures !begun
      ensures log == InitEvents()
    {
      porta := LED_ON;
      led := LED_ON;
      cols, numlines, currline := 0, 0, 0;
      begun := false;
      displayshift := CURSORMOVE | MOVERIGHT;
      displaymode := ENTRYLEFT;
      displaycontrol := DISPLAYON;
      log := [];
      new;
      log := log + [WriteRegister(IODIR, 0x00)];
      log := log + [WriteRegisters(IODIR, ExpanderImage(porta | led))];
      log := log + [WriteRegister(IOCON, 0x20)];
      assert log == [WriteRegister(IODIR, 0), WriteRegisters(IODIR, ExpanderImage(LED_ON)), WriteRegister(IOCON, 0x20)];
      SendPowerOn(E1);
      SendPowerOn(E2);
    }

    /** The ten power-on writes of the constructor, to one half. */
    method SendPowerOn(cs: Byte)
      modifies this`log
      ensures log == PowerOn(old(log), cs, led, displayshift, displaymode, displaycontrol)
    {
      SendFourBitInit(cs);
      SendDisplaySetup(cs);
    }

    /** The last five power-on writes of the constructor, to one half. */
    method SendDisplaySetup(cs: Byte)
      modifies this`log
      ensures log == DisplaySetup(old(log), cs, led, displayshift, displaymode, displaycontrol)
    {
      SendCommand(cs, CLEARDISPLAY);
      SendCommand(cs, CURSORSHIFT | displayshift);
      SendCommand(cs, ENTRYMODESET | displaymode);
      SendCommand(cs, DISPLAYCONTROL | displaycontrol);
      SendCommand(cs, RETURNHOME);
    }

    /** The first five power-on writes of the constructor, to one half. */
    method SendFourBitInit(cs: Byte)
      modifies this`log
      ensures log == FourBitInit(old(log), cs, led)
    {
      SendCommand(cs, 0x33);
      SendCommand(cs, 0x32);
      SendCommand(cs, 0x24);
      SendCommand(cs, 0x09);
      SendCommand(cs, 0x20);
    }

    /** write_lcd: one command or character, a list, or a text, sent to the
        half behind strobe `cs`. */
    method WriteLcd(cs: Byte, value: Value, charMode: bool)
      requires value.Text? ==> begun
      modifies this`log
      ensures log == old(log) + WriteLcdEvents(cs, value, charMode, led, cols)
    {
      var bitmask := led;
      if charMode {
        bitmask := bitmask | DATA_RS;
      }
      assert bitmask == Bitmask(led, charMode);
      log := log + [WriteRegister(IOCON, 0x20)];
      ghost var start := log;
      match value {
        case Single(b) =>
          var data := Out4(cs, bitmask, b);
          log := log + [WriteRegisters(GPIO, data)];
          assert [data][..0] == [];
        case Bytes(vs) =>
          FlushEach(cs, bitmask, vs, |vs| - 1);
        case Text(vs) =>
          var last := |vs| - 1;
          if last > cols {
            last := cols;
          }
          FlushEach(cs, bitmask, vs, last);
      }
      ghost var payload := GpioWrites(PayloadBlocks(cs, bitmask, value, cols));
      assert log == start + payload;
      log := log + [WriteRegister(IOCON, 0)];
      ghost var pause: seq<Event> := if IsSlow(value, charMode) then [Sleep(15000)] else [];
      if !charMode && value.Single? && (value.b == CLEARDISPLAY || value.b == RETURNHOME) {
        log := log + [Sleep(15000)];
      }
      assert log == old(log) + [WriteRegister(IOCON, 0x20)] + payload + [WriteRegister(IOCON, 0)] + pause;
      var on, off := [WriteRegister(IOCON, 0x20)], [WriteRegister(IOCON, 0)];
      Assoc(old(log), on, payload);
      Assoc(old(log), on + payload, off);
      Assoc(old(log), on + payload + off, pause);
    }

    /** write_lcd with a single byte in command mode. */
    method SendCommand(cs: Byte, c: Byte)
      modifies this`log
      ensures log == old(log) + Command(cs, c, led)
    {
      WriteLcd(cs, Single(c), false);
      CommandIsWriteLcd(cs, c, led, cols);
    }

    /** The same command to E1 and then to E2, as most operations send it. */
    method SendToBoth(c: Byte)
      modifies this`log
      ensures log == old(log) + ToBoth(c, led)
    {
      SendCommand(E1, c);
      SendCommand(E2, c);
      Assoc(old(log), Command(E1, c, led), Command(E2, c, led));
    }

    /** The batching loop of write_lcd: the four port states of each value
        go into `data`, which is written to GPIO whenever it holds 32 bytes
        or the value at index `last` has been added. */
    method FlushEach(cs: Byte, bitmask: Byte, vs: seq<Byte>, last: int)
      requires last < |vs|
      modifies this`log
      ensures log == old(log) + GpioWrites(LoopBlocks(cs, bitmask, vs, last))
    {
      var data: seq<Byte> := [];
      for i := 0 to |vs|
        invariant log == old(log) + GpioWrites(Flushed(cs, bitmask, vs, last, i))
        invariant data == Encode(cs, bitmask, Leftover(vs[Opened(last, i)..i]))
      {
        data := data + Out4(cs, bitmask, vs[i]);
        if |data| >= BLOCK_SIZE || i == last {
          FlushCloses(cs, bitmask, vs, last, i, data);
          LogBlock(old(log), Flushed(cs, bitmask, vs, last, i), data);
          log := log + [WriteRegisters(GPIO, data)];
          data := [];
        } else {
          FlushKeeps(cs, bitmask, vs, last, i, data);
        }
      }
      FlushedAll(cs, bitmask, vs, last);
    }

    /** begin: records the geometry and clears both halves. */
    method Begin(cols': int, lines: int)
      modifies this`currline, this`cols, this`numlines, this`begun, this`log
      ensures currline == 0 && cols == cols' && numlines == lines && begun
      ensures log == old(log) + ToBoth(CLEARDISPLAY, led)
    {
      currline := 0;
      cols := cols';
      numlines := lines;
      begun := true;
      Clear();
    }

    /** stop: backlight bit recorded as 0x80 and the expander put back in its
        default mode with all registers zero but GPIO and OLAT. */
    method Stop()
      modifies this`porta, this`log
      ensures porta == 0x80
      ensures log == old(log) + [Sleep(1500), WriteRegister(IOCON, 0), WriteRegisters(IODIR, ExpanderImage(0x80))]
    {
      porta := 0x80;
      log := log + [Sleep(1500)];
      log := log + [WriteRegister(IOCON, 0)];
      log := log + [WriteRegisters(0, ExpanderImage(porta))];
    }

    method Clear()
      modifies this`log
      ensures log == old(log) + ToBoth(CLEARDISPLAY, led)
    {
      SendToBoth(CLEARDISPLAY);
    }

    method Home()
      modifies this`log
      ensures log == old(log) + ToBoth(RETURNHOME, led)
    {
      SendToBoth(RETURNHOME);
    }

    /** setCursor: the clamped row picks the half and the row offset; one
        address command goes to that half only. A clamped row outside the
        tables raises IndexError before anything is sent. */
    method SetCursor(col: Byte, row: int) returns (outcome: Outcome)
      requires begun
      modifies this`log
      ensures match TableIndex(ClampRow(row, numlines))
              case None => outcome == Raised(IndexError) && log == old(log)
              case Some(i) =>
                outcome == Ok && log == old(log) + Command(RowChipSelect(i), CursorCommand(col, i), led)
    {
      var line := row;
      if line > numlines {
        line := numlines - 1;
      } else if line < 0 {
        line := 0;
      }
      assert line == ClampRow(row, numlines);
      var index := TableIndex(line);
      if index.None? {
        return Raised(IndexError);
      }
      var i := index.value;
      SendCommand(RowChipSelect(i), CursorCommand(col, i));
      outcome := Ok;
    }

    method Display()
      modifies this`displaycontrol, this`log
      ensures displaycontrol == SetFlag(old(displaycontrol), DISPLAYON)
      ensures log == old(log) + ToBoth(DISPLAYCONTROL | displaycontrol, led)
    {
      displaycontrol := displaycontrol | DISPLAYON;
      SendToBoth(DISPLAYCONTROL | displaycontrol);
    }

    method NoDisplay()
      modifies this`displaycontrol, this`log
      ensures displaycontrol == ClearFlag(old(displaycontrol), DISPLAYON)
      ensures log == old(log) + ToBoth(DISPLAYCONTROL | displaycontrol, led)
    {
      displaycontrol := displaycontrol & !DISPLAYON;
      SendToBoth(DISPLAYCONTROL | displaycontrol);
    }

    method Cursor()
      modifies this`displaycontrol, this`log
      ensures displaycontrol == SetFlag(old(displaycontrol), CURSORON)
      ensures log == old(log) + ToBoth(DISPLAYCONTROL | displaycontrol, led)
    {
      displaycontrol := displaycontrol | CURSORON;
      SendToBoth(DISPLAYCONTROL | displaycontrol);
    }

    method NoCursor()
      modifies this`displaycontrol, this`log
      ensures displaycontrol == ClearFlag(old(displaycontrol), CURSORON)
      ensures log == old(log) + ToBoth(DISPLAYCONTROL | displaycontrol, led)
    {
      displaycontrol := displaycontrol & !CURSORON;
      SendToBoth(DISPLAYCONTROL | displaycontrol);
    }

    method ToggleCursor()
      modifies this`displaycontrol, this`log
      ensures displaycontrol == ToggleFlag(old(displaycontrol), CURSORON)
      ensures log == old(log) + ToBoth(DISPLAYCONTROL | displaycontrol, led)
    {
      displaycontrol := displaycontrol ^ CURSORON;
      SendToBoth(DISPLAYCONTROL | displaycontrol);
    }

    method Blink()
      modifies this`displaycontrol, this`log
      ensures displaycontrol == SetFlag(old(displaycontrol), BLINKON)
      ensures log == old(log) + ToBoth(DISPLAYCONTROL | displaycontrol, led)
    {
      displaycontrol := displaycontrol | BLINKON;
      SendToBoth(DISPLAYCONTROL | displaycontrol);
    }

    method NoBlink()
      modifies this`displaycontrol, this`log
      ensures displaycontrol == ClearFlag(old(displaycontrol), BLINKON)
      ensures log == old(log) + ToBoth(DISPLAYCONTROL | displaycontrol, led)
    {
      displaycontrol := displaycontrol & !BLINKON;
      SendToBoth(DISPLAYCONTROL | displaycontrol);
    }

    /** ToggleBlink: only the flag update; its two writes go through a
        `write` method that is not part of this model. */
    method ToggleBlink()
      modifies this`displaycontrol, this`log
      ensures displaycontrol == ToggleFlag(old(displaycontrol), BLINKON)
      ensures log == old(log)
    {
      displaycontrol := displaycontrol ^ BLINKON;
    }

    method ScrollDisplayLeft()
      modifies this`displayshift, this`log
      ensures displayshift == DISPLAYMOVE | MOVELEFT
      ensures displayshift == 0x08
      ensures log == old(log) + ToBoth(CURSORSHIFT | displayshift, led)
    {
      displayshift := DISPLAYMOVE | MOVELEFT;
      SendToBoth(CURSORSHIFT | displayshift);
    }

    method ScrollDisplayRight()
      modifies this`displayshift, this`log
      ensures displayshift == DISPLAYMOVE | MOVERIGHT
      ensures displayshift == 0x0C
      ensures log == old(log) + ToBoth(CURSORSHIFT | displayshift, led)
    {
      displayshift := DISPLAYMOVE | MOVERIGHT;
      SendToBoth(CURSORSHIFT | displayshift);
    }

    method LeftToRight()
      modifies this`displaymode, this`log
      ensures displaymode == SetFlag(old(displaymode), ENTRYLEFT)
      ensures log == old(log) + ToBoth(ENTRYMODESET | displaymode, led)
    {
      displaymode := displaymode | ENTRYLEFT;
      SendToBoth(ENTRYMODESET | displaymode);
    }

    method RightToLeft()
      modifies this`displaymode, this`log
      ensures displaymode == ClearFlag(old(displaymode), ENTRYLEFT)
      ensures log == old(log) + ToBoth(ENTRYMODESET | displaymode, led)
    {
      displaymode := displaymode & !ENTRYLEFT;
      SendToBoth(ENTRYMODESET | displaymode);
    }

    method Autoscroll()
      modifies this`displaymode, this`log
      ensures displaymode == SetFlag(old(displaymode), ENTRYSHIFTINCREMENT)
      ensures log == old(log) + ToBoth(ENTRYMODESET | displaymode, led)
    {
      displaymode := displaymode | ENTRYSHIFTINCREMENT;
      SendToBoth(ENTRYMODESET | displaymode);
    }

    /** noAutoscroll as written: the flag is cleared, then the strobe
        constants are looked up as bare names, which are not bound, so
        NameError is raised before anything is sent. */
    method NoAutoscroll() returns (outcome: Outcome)
      modifies this`displaymode, this`log
      ensures displaymode == ClearFlag(old(displaymode), ENTRYSHIFTINCREMENT)
      ensures log == old(log)
      ensures outcome == Raised(NameError)
    {
      displaymode := displaymode & !ENTRYSHIFTINCREMENT;
      outcome := Raised(NameError);
    }

    /** noAutoscroll as evidently intended, with the strobe constants of the
        class as autoscroll uses them: the flag is cleared and the entry mode
        goes to both halves. */
    method NoAutoscrollIntended()
      modifies this`displaymode, this`log
      ensures displaymode == ClearFlag(old(displaymode), ENTRYSHIFTINCREMENT)
      ensures log == old(log) + ToBoth(ENTRYMODESET | displaymode, led)
    {
      displaymode := displaymode & !ENTRYSHIFTINCREMENT;
      SendToBoth(ENTRYMODESET | displaymode);
    }

    /** createChar: to each half, the CGRAM address of the slot, the glyph
        rows in character mode, then DDRAM address 0. */
    method CreateChar(location: int, bitmap: seq<Byte>)
      modifies this`log
      ensures log == old(log)
        + Command(E1, CgramCommand(location), led) + WriteLcdEvents(E1, Bytes(bitmap), true, led, cols)
        + Command(E1, SETDDRAMADDR, led)
        + Command(E2, CgramCommand(location), led) + WriteLcdEvents(E2, Bytes(bitmap), true, led, cols)
        + Command(E2, SETDDRAMADDR, led)
    {
      var address := SETCGRAMADDR | (((location % 8) as Byte) << 3);
      SendCommand(E1, address);
      WriteLcd(E1, Bytes(bitmap), true);
      SendCommand(E1, SETDDRAMADDR);
      SendCommand(E2, address);
      WriteLcd(E2, Bytes(bitmap), true);
      SendCommand(E2, SETDDRAMADDR);
    }

    /** message: the text's newline-separated segments, in order, to E1. */
    method Message(text: seq<Byte>)
      requires begun
      modifies this`log
      ensures log == old(log) + MessageEvents(Split(text), led, cols)
    {
      var lines := Split(text);
      for i := 0 to |lines|
        invariant log == old(log) + MessageEvents(lines[..i], led, cols)
      {
        ghost var before := log;
        if i > 0 {
          SendCommand(E1, SECOND_LINE);
        }
        assert log == before + Separator(i, Command(E1, SECOND_LINE, led));
        WriteLcd(E1, Text(lines[i]), true);
        JoinedStep(old(log), lines, i, Command(E1, SECOND_LINE, led), SegmentWriter(led, cols));
      }
      assert lines[..|lines|] == lines;
    }

    /** message_line: the cursor goes to column 0 of the clamped row, then
        the text goes to the strobe of the row as given, unclamped. */
    method MessageLine(row: int, text: seq<Byte>) returns (outcome: Outcome)
      requires begun
      modifies this`log
      ensures LineWritten(old(log), log, outcome, row, 0, text, numlines, led, cols)
    {
      outcome := SetCursor(0, row);
      if outcome.Raised? {
        return;
      }
      outcome := WriteLine(row, text);
    }

    /** message_line_pos: as message_line, from column `pos`. */
    method MessageLinePos(row: int, pos: Byte, text: seq<Byte>) returns (outcome: Outcome)
      requires begun
      modifies this`log
      ensures LineWritten(old(log), log, outcome, row, pos, text, numlines, led, cols)
    {
      outcome := SetCursor(pos, row);
      if outcome.Raised? {
        return;
      }
      outcome := WriteLine(row, text);
    }

    /** The text write shared by message_line and message_line_pos. */
    method WriteLine(row: int, text: seq<Byte>) returns (outcome: Outcome)
      requires begun
      modifies this`log
      ensures match TableIndex(row)
              case None => outcome == Raised(IndexError) && log == old(log)
              case Some(i) => outcome == Ok && log == old(log) + WriteLcdEvents(RowChipSelect(i), Text(text), true, led, cols)
    {
      var index := TableIndex(row);
      if index.None? {
        return Raised(IndexError);
      }
      WriteLcd(ROW_CHIP_SELECT[index.value], Text(text), true);
      outcome := Ok;
    }

    /** backlight: the new backlight bits are recorded and written straight
        to GPIO. */
    method Backlight(onoff: Byte)
      modifies this`led, this`log
      ensures led == onoff
      ensures log == old(log) + [WriteRegister(GPIO, onoff)]
    {
      led := onoff;
      log := log + [WriteRegister(GPIO, led)];
    }
  }

  /** What message_line(_pos) leaves behind: an IndexError from the clamped
      row before anything is sent, or the cursor command followed by an
      IndexError from the unclamped row, or the cursor command and the text
      write. */
  ghost predicate LineWritten(before: seq<Event>, after: seq<Event>, outcome: Outcome,
                              row: int, col: Byte, text: seq<Byte>, numlines: int, led: Byte, cols: int)
  {
    match TableIndex(ClampRow(row, numlines))
    case None => outcome == Raised(IndexError) && after == before
    case Some(c) =>
      var cursor := Command(RowChipSelect(c), CursorCommand(col, c), led);
      match TableIndex(row)
      case None => outcome == Raised(IndexError) && after == before + cursor
      case Some(i) => outcome == Ok && after == before + cursor + WriteLcdEvents(RowChipSelect(i), Text(text), true, led, cols)
  }

  /** The values of the batching loop that follow its last forced flush,
      after `i` values. */
  function Opened(last: int, i: nat): (o: nat)
    ensures o <= i
  {
    if 0 <= last < i then last + 1 else 0
  }

  /** The blocks the batching loop has written after `i` values. */
  function Flushed(cs: Byte, mask: Byte, vs: seq<Byte>, last: int, i: nat): seq<seq<Byte>>
    requires i <= |vs|
  {
    (if 0 <= last < i then AllBlocks(cs, mask, vs[..last + 1]) else [])
    + FullBlocks(cs, mask, vs[Opened(last, i)..i])
  }

  /** One pass of the batching loop: the value at index `i` joins the open
      group, and the group is flushed when it holds eight values or `i` is
      the forced flush. */
  lemma FlushStep(cs: Byte, mask: Byte, vs: seq<Byte>, last: int, i: nat)
    requires last < |vs| && i < |vs|
    ensures var data := Encode(cs, mask, Leftover(vs[Opened(last, i)..i])) + Out4(cs, mask, vs[i]);
            if |data| >= BLOCK_SIZE || i == last then
              Flushed(cs, mask, vs, last, i + 1) == Flushed(cs, mask, vs, last, i) + [data]
              && Leftover(vs[Opened(last, i + 1)..i + 1]) == []
            else
              Flushed(cs, mask, vs, last, i + 1) == Flushed(cs, mask, vs, last, i)
              && Encode(cs, mask, Leftover(vs[Opened(last, i + 1)..i + 1])) == data
  {
    var w := vs[Opened(last, i)..i];
    if i == last {
      FlushAtLast(cs, mask, vs, i);
    } else if |Leftover(w)| == 7 {
      FlushFullGroup(cs, mask, vs, last, i);
    } else {
      FlushNothing(cs, mask, vs, last, i);
    }
  }

  /** The loop's flush branch: the open group becomes one more block. */
  lemma FlushCloses(cs: Byte, mask: Byte, vs: seq<Byte>, last: int, i: nat, data: seq<Byte>)
    requires last < |vs| && i < |vs|
    requires data == Encode(cs, mask, Leftover(vs[Opened(last, i)..i])) + Out4(cs, mask, vs[i])
    requires |data| >= BLOCK_SIZE || i == last
    ensures Flushed(cs, mask, vs, last, i + 1) == Flushed(cs, mask, vs, last, i) + [data]
    ensures Encode(cs, mask, Leftover(vs[Opened(last, i + 1)..i + 1])) == []
  {
    FlushStep(cs, mask, vs, last, i);
  }

  /** The loop's other branch: the value only joins the open group. */
  lemma FlushKeeps(cs: Byte, mask: Byte, vs: seq<Byte>, last: int, i: nat, data: seq<Byte>)
    requires last < |vs| && i < |vs|
    requires data == Encode(cs, mask, Leftover(vs[Opened(last, i)..i])) + Out4(cs, mask, vs[i])
    requires !(|data| >= BLOCK_SIZE || i == last)
    ensures Flushed(cs, mask, vs, last, i + 1) == Flushed(cs, mask, vs, last, i)
    ensures Encode(cs, mask, Leftover(vs[Opened(last, i + 1)..i + 1])) == data
  {
    FlushStep(cs, mask, vs, last, i);
  }

  /** The value at the forced flush closes a block with the open group. */
  lemma FlushAtLast(cs: Byte, mask: Byte, vs: seq<Byte>, i: nat)
    requires i < |vs|
    ensures Flushed(cs, mask, vs, i, i + 1)
            == Flushed(cs, mask, vs, i, i) + [Encode(cs, mask, Leftover(vs[..i])) + Out4(cs, mask, vs[i])]
    ensures Opened(i, i) == 0 && Opened(i, i + 1) == i + 1
  {
    var w := vs[..i];
    var v := vs[i];
    calc {
      Flushed(cs, mask, vs, i, i + 1);
      AllBlocks(cs, mask, vs[..i + 1]) + FullBlocks(cs, mask, vs[i + 1..i + 1]);
      { assert FullBlocks(cs, mask, vs[i + 1..i + 1]) == []; }
      AllBlocks(cs, mask, vs[..i + 1]) + [];
      { assert vs[..i + 1] == w + [v]; }
      AllBlocks(cs, mask, w + [v]) + [];
      { StepBlocks(cs, mask, w, v); }
      FullBlocks(cs, mask, w) + [Encode(cs, mask, Leftover(w) + [v])];
      { EncodeSnoc(cs, mask, Leftover(w), v); assert vs[0..i] == w; }
      Flushed(cs, mask, vs, i, i) + [Encode(cs, mask, Leftover(w)) + Out4(cs, mask, v)];
    }
  }

  /** An eighth value in the open group closes a full block. */
  lemma FlushFullGroup(cs: Byte, mask: Byte, vs: seq<Byte>, last: int, i: nat)
    requires last < |vs| && i < |vs| && i != last
    requires |Leftover(vs[Opened(last, i)..i])| == 7
    ensures var w := vs[Opened(last, i)..i];
            Flushed(cs, mask, vs, last, i + 1)
            == Flushed(cs, mask, vs, last, i) + [Encode(cs, mask, Leftover(w)) + Out4(cs, mask, vs[i])]
    ensures Opened(last, i + 1) == Opened(last, i)
    ensures Leftover(vs[Opened(last, i)..i + 1]) == []
  {
    var s := Opened(last, i);
    var w := vs[s..i];
    StepBlocks(cs, mask, w, vs[i]);
    EncodeSnoc(cs, mask, Leftover(w), vs[i]);
    SliceSnoc(vs, s, i);
    Assoc(if 0 <= last < i then AllBlocks(cs, mask, vs[..last + 1]) else [],
          FullBlocks(cs, mask, w), [Encode(cs, mask, Leftover(w) + [vs[i]])]);
  }

  /** Any other value only joins the open group. */
  lemma FlushNothing(cs: Byte, mask: Byte, vs: seq<Byte>, last: int, i: nat)
    requires last < |vs| && i < |vs| && i != last
    requires |Leftover(vs[Opened(last, i)..i])| < 7
    ensures Flushed(cs, mask, vs, last, i + 1) == Flushed(cs, mask, vs, last, i)
    ensures Opened(last, i + 1) == Opened(last, i)
    ensures Encode(cs, mask, Leftover(vs[Opened(last, i)..i + 1]))
            == Encode(cs, mask, Leftover(vs[Opened(last, i)..i])) + Out4(cs, mask, vs[i])
  {
    var s := Opened(last, i);
    var w := vs[s..i];
    StepBlocks(cs, mask, w, vs[i]);
    EncodeSnoc(cs, mask, Leftover(w), vs[i]);
    SliceSnoc(vs, s, i);
  }

  /** A slice one element longer. */
  lemma SliceSnoc<T>(s: seq<T>, a: nat, b: nat)
    requires a <= b < |s|
    ensures s[a..b + 1] == s[a..b] + [s[b]]
  {
  }

  /** Encoding one more value appends its four port states. */
  lemma EncodeSnoc(cs: Byte, mask: Byte, a: seq<Byte>, v: Byte)
    ensures Encode(cs, mask, a + [v]) == Encode(cs, mask, a) + Out4(cs, mask, v)
  {
    assert (a + [v])[..|a|] == a;
  }

  /** When the loop ends, it has written exactly LoopBlocks. */
  lemma FlushedAll(cs: Byte, mask: Byte, vs: seq<Byte>, last: int)
    requires last < |vs|
    ensures Flushed(cs, mask, vs, last, |vs|) == LoopBlocks(cs, mask, vs, last)
  {
    if last < 0 {
      assert vs[0..|vs|] == vs;
    } else {
      assert vs[last + 1..|vs|] == vs[last + 1..];
    }
  }

  /** Logging one more block write extends the logged block writes. */
  lemma LogBlock(start: seq<Event>, bs: seq<seq<Byte>>, b: seq<Byte>)
    ensures start + GpioWrites(bs) + [WriteRegisters(GPIO, b)] == start + GpioWrites(bs + [b])
  {
    GpioWritesSnoc(bs, b);
    Assoc(start, GpioWrites(bs), [WriteRegisters(GPIO, b)]);
  }

  /** One more block write appends one event. */
  lemma GpioWritesSnoc(bs: seq<seq<Byte>>, b: seq<Byte>)
    ensures GpioWrites(bs + [b]) == GpioWrites(bs) + [WriteRegisters(GPIO, b)]
  {
    assert (bs + [b])[..|bs|] == bs;
  }
}
