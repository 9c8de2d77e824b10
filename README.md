# LCD6x20 and MODRGB drivers, modelled in Dafny

This project models two I2C device drivers of WebIOPi.

**LCD6x20.** A 6-line, 20-column character display made of two HD44780-style
controllers. The controller strobes are E1 (rows 0-2) and E2 (rows 3-5).
It is driven in 4-bit mode through an MCP23008 port expander. The model covers:

- **Driver state.** The `Lcd6x20.Lcd` class holds the driver's fields: backlight bits, entry mode, display control, shift, and the columns and lines set by `begin`.
- **Constructor.** The expander set-up and the power-on sequence sent to each half.
- **write_lcd.** It turns a single byte, a list or a string into 4-bit port states and sends them as block writes of at most 32 bytes.
- **High-level operations.** clear, home, setCursor, the display, cursor, blink, scroll and entry-mode switches, createChar and the message operations are built on write_lcd. `backlight` and `stop` write the expander's registers directly. `ToggleBlink` only changes its flag here, because its `self.write` calls are not part of this model. `noAutoscroll` as written raises before it sends anything.

**MODRGB.** An RGB LED board. After every change, the driver sends one raw
five-byte frame: the header `05 03` followed by the red, green and blue levels.

**The transport.** Both drivers talk to the bus only through the transport (`Transport`).
It is modelled as an append-only `log` of the calls made into it:

- register writes;
- block writes;
- raw byte writes;
- sleeps of the calling thread.

Every driver operation is specified by the exact events it appends and the
fields it changes. The one exception is `ToggleBlink`, whose bus traffic goes
through `self.write`, which is not part of this model. The properties are proved about the functions that build
those events.

The main properties proved:

- **Nibble encoding.** Each value becomes four port states. Strobe-high states equal strobe-low states with the strobe bit added, and every state carries the bitmask. When the bitmask stays off the data lines, the four states decode back to the value (`Out4Spec`).
- **Blocks cover the encoding.** The blocks write_lcd sends for a list cover its encoding exactly, in order. They are 32-byte blocks except possibly the last (`AllBlocksSpec`, `Lcd.FlushEach`).
- **Long strings lose their tail.** For a string longer than `cols + 1`, the 32-byte blocks are still sent after the forced flush at position `cols`, but the trailing partial block is never sent. The bytes written are the encoding of a prefix that ends on a group boundary (`TextOverflowDropsTail`).
- **Shape of every write_lcd call.** Sequential mode is switched on first and off last. Every write in between is a GPIO block write of at most 32 bytes that carries the backlight bits, and in character mode also the register-select bit. Only clear and home in command mode are followed by a sleep (`WriteLcdShape`).
- **message.** Splitting the text on newlines is inverse to joining the pieces with newlines (`JoinSplit`, `SplitJoin`). A newline in the text turns into exactly one "second line" command between the writes of its two sides (`MessageAtNewline`).
- **setCursor.** Its clamp and the Python tuple lookups are modelled exactly, including negative indices and IndexError (`Lcd.SetCursor`, `TableIndex`).

On the row clamp, the code and the documented intent disagree. The documented
intent is that a row past the end clamps to `numlines - 1`. The code only
clamps rows strictly above `numlines`, so row `numlines` itself passes through.
The model follows the code; see "## Findings".

## Model

| member | source | states |
|---|---|---|
| LcdEncoding.Out4 | python/webiopi/devices/lcd/lcd6x20.py:150-153 | out4 gives four port states per value |
| LcdEncoding.Out4Spec | python/webiopi/devices/lcd/lcd6x20.py:150-153 | high/low nibble states come in pairs, strobe set then cleared; the cleared states keep only the bitmask on the strobe bit; every state carries the bitmask; with the bitmask off the data lines D4-D7 the states decode back to the value |
| LcdEncoding.Out4Strobe | python/webiopi/devices/lcd/lcd6x20.py:153 | state 0 is state 1 with the strobe set, state 2 is state 3 with the strobe set |
| LcdEncoding.Out4KeepsMask | python/webiopi/devices/lcd/lcd6x20.py:151-152 | all four states carry the bitmask bits |
| LcdEncoding.Out4RoundTrip | python/webiopi/devices/lcd/lcd6x20.py:151-152 | the data lines of the high and low state carry the value's two nibbles, so decoding returns the value |
| LcdEncoding.NibbleStates | python/webiopi/devices/lcd/lcd6x20.py:151-152 | hi and lo carry the bitmask, with and without the strobe, and the nibbles decode back to the value |
| LcdEncoding.Encode | python/webiopi/devices/lcd/lcd6x20.py:187 | the accumulated data is four bytes per value |
| LcdEncoding.EncodeAt | python/webiopi/devices/lcd/lcd6x20.py:187 | bytes 4k..4k+3 of the data are out4 of value k |
| LcdEncoding.EncodeAppend | python/webiopi/devices/lcd/lcd6x20.py:199 | extending the data value by value is concatenation of their encodings |
| LcdEncoding.EncodeCarriesMask | python/webiopi/devices/lcd/lcd6x20.py:199 | every byte of the data carries the bitmask |
| LcdEncoding.FullBlocks | python/webiopi/devices/lcd/lcd6x20.py:200-202 | the list loop flushes one block per eight values |
| LcdEncoding.FullBlocksSize | python/webiopi/devices/lcd/lcd6x20.py:200 | every block flushed on the size test is exactly 32 bytes |
| LcdEncoding.Leftover | python/webiopi/devices/lcd/lcd6x20.py:200-202 | the values still unflushed are fewer than eight, the length modulo eight |
| LcdEncoding.LeftoverSplit | python/webiopi/devices/lcd/lcd6x20.py:200-202 | the input is the flushed prefix followed by the leftover |
| LcdEncoding.StepBlocks | python/webiopi/devices/lcd/lcd6x20.py:198-202 | one loop iteration: the eighth pending value flushes a block, any other is kept |
| LcdEncoding.BlocksCoverEncoding | python/webiopi/devices/lcd/lcd6x20.py:197-202 | the flushed blocks followed by the pending data are the encoding of the values seen, the loop invariant |
| LcdEncoding.AllBlocksSpec | python/webiopi/devices/lcd/lcd6x20.py:194-202 | the list form sends ceil(n/8) blocks whose concatenation is the whole encoding; all but the last are 32 bytes, none is empty or longer |
| LcdEncoding.AllBlocksSizes | python/webiopi/devices/lcd/lcd6x20.py:194-202 | block count ceil(n/8), 32-byte blocks except the last, none empty |
| LcdEncoding.FullBlocksFlatten | python/webiopi/devices/lcd/lcd6x20.py:200-202 | the full blocks are the encoding of the longest prefix of whole groups of eight |
| LcdEncoding.TextLast | python/webiopi/devices/lcd/lcd6x20.py:179-181 | last is len-1, capped at cols |
| LcdEncoding.IsSlow | python/webiopi/devices/lcd/lcd6x20.py:211 | the sleep is due exactly for a single clear or return-home byte in command mode; a list or a string never equals one of the pollable ints |
| LcdEncoding.AllBlocks | python/webiopi/devices/lcd/lcd6x20.py:194-202 | the list form's blocks, by definition: the full groups of eight values, then the leftover group if there is one |
| LcdEncoding.LoopBlocks | python/webiopi/devices/lcd/lcd6x20.py:183-202 | the enumerate loop's blocks for a given `last`, by definition: the blocks of the values up to `last`, with the forced flush at `last`, then the full groups of eight after it, whose trailing partial group is never flushed; a negative `last` forces no flush |
| LcdEncoding.PayloadBlocks | python/webiopi/devices/lcd/lcd6x20.py:178-207 | the three-way dispatch, by definition: one out4 block for a single int, LoopBlocks with last = len-1 for a list, LoopBlocks with TextLast for a string |
| LcdEncoding.WriteLcdEvents | python/webiopi/devices/lcd/lcd6x20.py:171-212 | one write_lcd call, by definition: IOCON 0x20, one GPIO block write per payload block, IOCON 0, and the sleep when IsSlow |
| LcdEncoding.LoopBlocksToEnd | python/webiopi/devices/lcd/lcd6x20.py:196 | with last = len-1 the loop sends exactly the list-form blocks |
| LcdEncoding.TextOverflowDropsTail | python/webiopi/devices/lcd/lcd6x20.py:178-193 | a string longer than cols+1 sends the encoding of a prefix of length Kept: everything up to position cols plus the later whole groups of eight, and drops the final partial group |
| LcdEncoding.Kept | python/webiopi/devices/lcd/lcd6x20.py:179-193 | the prefix sent covers positions 0..cols and loses fewer than eight trailing characters |
| LcdEncoding.LoopBlocksBounded | python/webiopi/devices/lcd/lcd6x20.py:191-192 | every block the loops send is non-empty and at most 32 bytes |
| LcdEncoding.LoopBlocksCarryMask | python/webiopi/devices/lcd/lcd6x20.py:187-192 | every byte of every block sent carries the bitmask |
| LcdEncoding.PayloadBlocksWellFormed | python/webiopi/devices/lcd/lcd6x20.py:178-207 | in all three forms every block is 1..32 bytes and carries the bitmask |
| LcdEncoding.Bitmask | python/webiopi/devices/lcd/lcd6x20.py:173-175 | the bitmask is the backlight bits, with the register-select bit added in character mode and nothing added in command mode |
| LcdEncoding.GpioWritesAt | python/webiopi/devices/lcd/lcd6x20.py:192 | the k-th GPIO write carries the k-th block |
| LcdEncoding.WriteLcdShape | python/webiopi/devices/lcd/lcd6x20.py:171-212 | IOCON 0x20 first and IOCON 0 last; only GPIO block writes of 1..32 bytes carrying the bitmask between; a 15 ms sleep follows exactly for clear and home in command mode |
| LcdText.Split | python/webiopi/devices/lcd/lcd6x20.py:377 | split on newline gives one more piece than there are newlines |
| LcdText.SplitClean | python/webiopi/devices/lcd/lcd6x20.py:377 | no piece contains a newline |
| LcdText.JoinSplit | python/webiopi/devices/lcd/lcd6x20.py:377 | joining the pieces with newlines gives back the text |
| LcdText.SplitJoin | python/webiopi/devices/lcd/lcd6x20.py:377 | splitting a newline-free list of pieces joined by newlines gives back the pieces |
| LcdText.SplitPlain | python/webiopi/devices/lcd/lcd6x20.py:377 | text without a newline is one piece |
| LcdText.SplitAtNewline | python/webiopi/devices/lcd/lcd6x20.py:377 | the pieces of a + newline + b are the pieces of a followed by those of b |
| Lcd6x20.SetFlag | python/webiopi/devices/lcd/lcd6x20.py:270 | the flag bit is set and every other bit kept |
| Lcd6x20.ClearFlag | python/webiopi/devices/lcd/lcd6x20.py:277 | the flag bit is cleared and every other bit kept |
| Lcd6x20.ToggleFlag | python/webiopi/devices/lcd/lcd6x20.py:298 | the flag bit is inverted and every other bit kept |
| Lcd6x20.ToggleTwice | python/webiopi/devices/lcd/lcd6x20.py:296-300 | toggling twice restores the field |
| Lcd6x20.TableIndex | python/webiopi/devices/lcd/lcd6x20.py:265 | a six-entry tuple lookup succeeds exactly for -6..5, at the index taken modulo 6 |
| Lcd6x20.RowOffset | python/webiopi/devices/lcd/lcd6x20.py:258 | rows start at 0x00, 0x20, 0x40 on each half |
| Lcd6x20.RowChipSelect | python/webiopi/devices/lcd/lcd6x20.py:259 | rows 0-2 strobe E1, rows 3-5 strobe E2 |
| Lcd6x20.ClampRow | python/webiopi/devices/lcd/lcd6x20.py:261-264 | rows above numlines become numlines-1, negative rows 0, all others kept, numlines included |
| Lcd6x20.ClampKeepsNumlines | python/webiopi/devices/lcd/lcd6x20.py:261-265 | row numlines passes the clamp; with six lines it then misses the tables |
| Lcd6x20.ClampRowIntended | python/webiopi/devices/lcd/lcd6x20.py:261-264 | every row lands in 0..numlines-1, rows inside kept |
| Lcd6x20.CursorCommand | python/webiopi/devices/lcd/lcd6x20.py:265 | the DDRAM bit is set and the seven address bits are the column plus the row's start address, taken modulo 128; while that sum is below 0x80 they are exactly the sum |
| Lcd6x20.CgramCommand | python/webiopi/devices/lcd/lcd6x20.py:367 | the CGRAM bit is set and bits 3-5 hold the slot modulo 8 |
| Lcd6x20.CommandIsWriteLcd | python/webiopi/devices/lcd/lcd6x20.py:203-212 | write_lcd of one command byte is IOCON on, one GPIO block, IOCON off, and the pause |
| Lcd6x20.Command | python/webiopi/devices/lcd/lcd6x20.py:203-212 | write_lcd of one command byte, by definition: IOCON 0x20, the byte's four states in one GPIO block write, IOCON 0, then Pause |
| Lcd6x20.Pause | python/webiopi/devices/lcd/lcd6x20.py:211-212 | one 15 ms sleep after clear or return-home, nothing after any other command |
| Lcd6x20.ToBoth | python/webiopi/devices/lcd/lcd6x20.py:249-250 | one command to E1 and then the same command to E2 |
| Lcd6x20.FourBitInit | python/webiopi/devices/lcd/lcd6x20.py:115-119 | the log extended by the commands 0x33, 0x32, 0x24, 0x09, 0x20 to one half |
| Lcd6x20.DisplaySetup | python/webiopi/devices/lcd/lcd6x20.py:120-124 | the log extended by clear, cursor shift, entry mode, display control and return home to one half |
| Lcd6x20.PowerOn | python/webiopi/devices/lcd/lcd6x20.py:115-124 | the four-bit set-up followed by the display set-up, to one half |
| Lcd6x20.InitEvents | python/webiopi/devices/lcd/lcd6x20.py:94-134 | IODIR 0, the eleven-register image with GPIO and OLAT 0x80, IOCON 0x20, then the power-on sequence to E1 and then to E2 |
| Lcd6x20.MessageEvents | python/webiopi/devices/lcd/lcd6x20.py:375-381 | the pieces, in order, each as a character-mode string write to E1, with the 0xC0 command before every piece after the first |
| Lcd6x20.LineWritten | python/webiopi/devices/lcd/lcd6x20.py:384-391 | an IndexError from the clamped row with nothing sent; or the cursor command followed by an IndexError from the unclamped row; or the cursor command and then the string write to the unclamped row's strobe |
| Lcd6x20.ExpanderImage | python/webiopi/devices/lcd/lcd6x20.py:95-106 | eleven registers IODIR..OLAT, all zero except GPIO and OLAT |
| Lcd6x20.JoinedStep | python/webiopi/devices/lcd/lcd6x20.py:378-381 | one iteration of the message loop appends the separator and the next piece |
| Lcd6x20.JoinedAppend | python/webiopi/devices/lcd/lcd6x20.py:378-381 | writing two lists of pieces is writing each with one separator between |
| Lcd6x20.MessageEventsAppend | python/webiopi/devices/lcd/lcd6x20.py:378-381 | the pieces of two texts are written with one second-line command between |
| Lcd6x20.MessageAtNewline | python/webiopi/devices/lcd/lcd6x20.py:375-381 | message(a + newline + b) writes a, one second-line command, then b |
| Lcd6x20.MessageWithoutNewline | python/webiopi/devices/lcd/lcd6x20.py:375-381 | message of a newline-free text is one string write_lcd to E1 |
| Lcd6x20.Lcd.constructor | python/webiopi/devices/lcd/lcd6x20.py:89-134 | the fields start as the source sets them and the log is IODIR, the register image, IOCON 0x20, then the ten power-on commands to E1 and to E2 |
| Lcd6x20.Lcd.SendPowerOn | python/webiopi/devices/lcd/lcd6x20.py:115-124 | the ten power-on commands to one half |
| Lcd6x20.Lcd.SendFourBitInit | python/webiopi/devices/lcd/lcd6x20.py:115-119 | the five 4-bit set-up commands |
| Lcd6x20.Lcd.SendDisplaySetup | python/webiopi/devices/lcd/lcd6x20.py:120-124 | clear, shift, entry mode, display control, home |
| Lcd6x20.Lcd.WriteLcd | python/webiopi/devices/lcd/lcd6x20.py:171-212 | appends exactly WriteLcdEvents for the value, in all three forms |
| Lcd6x20.Lcd.FlushEach | python/webiopi/devices/lcd/lcd6x20.py:182-202 | the enumerate loop sends exactly the blocks LoopBlocks specifies |
| Lcd6x20.Lcd.SendCommand | python/webiopi/devices/lcd/lcd6x20.py:203-212 | one command byte to one half |
| Lcd6x20.Lcd.SendToBoth | python/webiopi/devices/lcd/lcd6x20.py:249-250 | the command to E1, then to E2 |
| Lcd6x20.Lcd.Begin | python/webiopi/devices/lcd/lcd6x20.py:218-222 | sets currline 0, cols and numlines, then clears both halves |
| Lcd6x20.Lcd.Stop | python/webiopi/devices/lcd/lcd6x20.py:229-245 | porta becomes 0x80; a 1.5 ms sleep, IOCON 0, and the register image with GPIO and OLAT 0x80 |
| Lcd6x20.Lcd.Clear | python/webiopi/devices/lcd/lcd6x20.py:248-250 | clear to both halves, each followed by the pause |
| Lcd6x20.Lcd.Home | python/webiopi/devices/lcd/lcd6x20.py:253-255 | return-home to both halves, each followed by the pause |
| Lcd6x20.Lcd.SetCursor | python/webiopi/devices/lcd/lcd6x20.py:260-265 | the clamped row picks the half and the offset; IndexError with nothing sent when it misses the tables |
| Lcd6x20.Lcd.Display | python/webiopi/devices/lcd/lcd6x20.py:268-272 | display bit set, control sent to both halves |
| Lcd6x20.Lcd.NoDisplay | python/webiopi/devices/lcd/lcd6x20.py:275-279 | display bit cleared, control sent to both halves |
| Lcd6x20.Lcd.Cursor | python/webiopi/devices/lcd/lcd6x20.py:282-286 | cursor bit set, control sent to both halves |
| Lcd6x20.Lcd.NoCursor | python/webiopi/devices/lcd/lcd6x20.py:289-293 | cursor bit cleared, control sent to both halves |
| Lcd6x20.Lcd.ToggleCursor | python/webiopi/devices/lcd/lcd6x20.py:296-300 | cursor bit inverted, control sent to both halves |
| Lcd6x20.Lcd.Blink | python/webiopi/devices/lcd/lcd6x20.py:303-307 | blink bit set, control sent to both halves |
| Lcd6x20.Lcd.NoBlink | python/webiopi/devices/lcd/lcd6x20.py:310-314 | blink bit cleared, control sent to both halves |
| Lcd6x20.Lcd.ToggleBlink | python/webiopi/devices/lcd/lcd6x20.py:317-321 | blink bit inverted |
| Lcd6x20.Lcd.ScrollDisplayLeft | python/webiopi/devices/lcd/lcd6x20.py:324-328 | shift becomes display-move left, sent to both halves |
| Lcd6x20.Lcd.ScrollDisplayRight | python/webiopi/devices/lcd/lcd6x20.py:331-335 | shift becomes display-move right, sent to both halves |
| Lcd6x20.Lcd.LeftToRight | python/webiopi/devices/lcd/lcd6x20.py:338-342 | entry-left bit set, entry mode sent to both halves |
| Lcd6x20.Lcd.RightToLeft | python/webiopi/devices/lcd/lcd6x20.py:345-349 | entry-left bit cleared, entry mode sent to both halves |
| Lcd6x20.Lcd.Autoscroll | python/webiopi/devices/lcd/lcd6x20.py:352-356 | shift-increment bit set, entry mode sent to both halves |
| Lcd6x20.Lcd.NoAutoscroll | python/webiopi/devices/lcd/lcd6x20.py:359-363 | shift-increment bit cleared, then NameError with nothing sent |
| Lcd6x20.Lcd.NoAutoscrollIntended | python/webiopi/devices/lcd/lcd6x20.py:359-363 | shift-increment bit cleared, entry mode sent to both halves |
| Lcd6x20.Lcd.CreateChar | python/webiopi/devices/lcd/lcd6x20.py:366-372 | to each half: CGRAM address of the slot, the glyph rows as characters, DDRAM address 0 |
| Lcd6x20.Lcd.Message | python/webiopi/devices/lcd/lcd6x20.py:375-381 | the newline-separated pieces to E1, with the second-line command before each piece after the first |
| Lcd6x20.Lcd.MessageLine | python/webiopi/devices/lcd/lcd6x20.py:384-386 | cursor to column 0 of the clamped row, then the text to the strobe of the unclamped row, with either lookup able to raise IndexError |
| Lcd6x20.Lcd.MessageLinePos | python/webiopi/devices/lcd/lcd6x20.py:389-391 | as message_line, from the given column |
| Lcd6x20.Lcd.WriteLine | python/webiopi/devices/lcd/lcd6x20.py:386 | the text to the strobe of the row as given, or IndexError with nothing sent |
| Lcd6x20.Lcd.Backlight | python/webiopi/devices/lcd/lcd6x20.py:394-396 | the backlight bits are stored and written straight to GPIO |
| ModRgb.Frame | python/build/lib.linux-armv6l-2.7/webiopi/devices/led/mod-rgb.py:45 | a frame is five bytes starting with the header 05 03 |
| ModRgb.FrameLevels | python/build/lib.linux-armv6l-2.7/webiopi/devices/led/mod-rgb.py:45 | a byte string decodes to levels exactly when it is five bytes with the header |
| ModRgb.FrameRoundTrip | python/build/lib.linux-armv6l-2.7/webiopi/devices/led/mod-rgb.py:45 | decoding a frame gives back its levels |
| ModRgb.FrameOfLevels | python/build/lib.linux-armv6l-2.7/webiopi/devices/led/mod-rgb.py:45 | every well-formed frame is the frame of the levels it carries |
| ModRgb.ChannelOf | python/build/lib.linux-armv6l-2.7/webiopi/devices/led/mod-rgb.py:69-74 | 1 is red, 2 is green, every other number blue |
| ModRgb.WriteOutcome | python/build/lib.linux-armv6l-2.7/webiopi/devices/led/mod-rgb.py:46 | the call returns exactly when the bus accepts the write, else the bus's exception propagates |
| ModRgb.Driver.SendFrame | python/build/lib.linux-armv6l-2.7/webiopi/devices/led/mod-rgb.py:46 | appends the frame of the current levels |
| ModRgb.Driver.constructor | python/build/lib.linux-armv6l-2.7/webiopi/devices/led/mod-rgb.py:29-35 | levels 0 and one all-zero frame sent |
| ModRgb.Driver.SetRed | python/build/lib.linux-armv6l-2.7/webiopi/devices/led/mod-rgb.py:43-46 | only red changes, then one frame of the new levels |
| ModRgb.Driver.SetGreen | python/build/lib.linux-armv6l-2.7/webiopi/devices/led/mod-rgb.py:48-51 | only green changes, then one frame of the new levels |
| ModRgb.Driver.SetBlue | python/build/lib.linux-armv6l-2.7/webiopi/devices/led/mod-rgb.py:54-57 | only blue changes, then one frame of the new levels |
| ModRgb.Driver.SetRgb | python/build/lib.linux-armv6l-2.7/webiopi/devices/led/mod-rgb.py:60-65 | all three levels set, then one frame |
| ModRgb.Driver.SetChannelAsWritten | python/build/lib.linux-armv6l-2.7/webiopi/devices/led/mod-rgb.py:68-69 | every call raises NameError before changing anything |
| ModRgb.Driver.SetChannel | python/build/lib.linux-armv6l-2.7/webiopi/devices/led/mod-rgb.py:68-76 | only the chosen channel changes, then one frame |
| ModRgb.Driver.SetAllChannel | python/build/lib.linux-armv6l-2.7/webiopi/devices/led/mod-rgb.py:79-87 | all levels become the value, one frame, and a refused write is swallowed |

## Left out

- The I2C base class, bus numbers, slave address parsing (`toint`) and all reads are not part of this model. The transport is only the log of calls made into it.
- The LCD transport is taken to accept every write. A bus failure in the middle of a write_lcd is not modelled.
- MODRGB's constructor is taken to have its first frame accepted.
- Sleeps are logged as `Sleep` events with their length. No timing is modelled.
- Values are bytes. Python ints outside 0..255 in write_lcd, in the levels or in the backlight are not modelled. Strings are their character codes.
- Lcd6x20.CursorCommand: the column plus the row offset is computed modulo 256. Python would compute a wider int here and pass it to the bus.
- Lcd6x20.Lcd.ToggleBlink: the source then calls `self.write`, which comes from a base class that is not part of this model. The model takes those two calls as sending nothing and returning normally, so it promises an unchanged log where the source may write to the bus or raise.
- Lcd6x20.Lcd.WriteLcd: string writes, setCursor and the message operations require `begun`. Before `begin` the source raises AttributeError on `cols` or `numlines`, and that path is not modelled.
- `__str__` and `__family__` are left out, because they only name the device.
- What the display physically shows is left out. The model stops at the bytes sent to the expander.

## Findings

| source | as written | input that shows it | evidently intended | confidence | as-written member | corrected member |
|---|---|---|---|---|---|---|
| python/build/lib.linux-armv6l-2.7/webiopi/devices/led/mod-rgb.py:68-69 | `set_channel` reads `channel`, which is neither a parameter nor bound anywhere, so it raises NameError | any call, e.g. `set_channel(10)` | the channel number is an argument, and it picks the level to set | high, not executed | ModRgb.Driver.SetChannelAsWritten | ModRgb.Driver.SetChannel |
| python/webiopi/devices/lcd/lcd6x20.py:359-363 | `noAutoscroll` uses the strobe constants as bare names inside the method, so NameError is raised after the flag is cleared and nothing is sent | any call of `noAutoscroll()` | the class constants are used as in `autoscroll`, and the entry mode goes to both halves | high, not executed | Lcd6x20.Lcd.NoAutoscroll | Lcd6x20.Lcd.NoAutoscrollIntended |
| python/webiopi/devices/lcd/lcd6x20.py:261-265 | the clamp tests `line_nr > numlines`, so row `numlines` passes unchanged | `begin(20, 6)` then `setCursor(0, 6)` raises IndexError | rows at or above `numlines` clamp to `numlines - 1` | high, not executed | Lcd6x20.ClampKeepsNumlines | Lcd6x20.ClampRowIntended |
