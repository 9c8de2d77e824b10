/** The MODRGB LED driver: three channel levels held in fields, and after
    every change one raw five-byte frame to the board carrying all three.
    The bus is the append-only log of Transport; whether the bus accepts a
    write is a parameter of each operation. */
module ModRgb {
  import opened Transport

  /** The two header bytes of every frame the driver sends. */
  const FRAME_HEADER: seq<Byte> := [0x05, 0x03]

  /** The frame that sets the board to levels (r, g, b). */
  function Frame(r: Byte, g: Byte, b: Byte): (f: seq<Byte>)
    ensures |f| == 5 && f[..2] == FRAME_HEADER
  {
    FRAME_HEADER + [r, g, b]
  }

  /** The three levels a well-formed frame carries, if it is one. */
  function FrameLevels(f: seq<Byte>): (levels: Option<(Byte, Byte, Byte)>)
    ensures levels.Some? <==> |f| == 5 && f[..2] == FRAME_HEADER
  {
    if |f| == 5 && f[..2] == FRAME_HEADER then Some((f[2], f[3], f[4])) else None
  }

  /** Reading a frame back gives the levels it was built from. */
  lemma FrameRoundTrip(r: Byte, g: Byte, b: Byte)
    ensures FrameLevels(Frame(r, g, b)) == Some((r, g, b))
  {
  }

  /** And every well-formed frame is the frame of the levels it carries, so
      two frames are equal exactly when their levels are. */
  lemma FrameOfLevels(f: seq<Byte>)
    requires FrameLevels(f).Some?
    ensures var (r, g, b) := FrameLevels(f).value; f == Frame(r, g, b)
  {
    var (r, g, b) := FrameLevels(f).value;
    assert f == f[..2] + [r, g, b];
  }

  /** The colour channels set_channel picks between. */
  datatype Channel = Red | Green | Blue

  /** set_channel's dispatch: 1 is red, 2 is green, any other number blue. */
  function ChannelOf(channel: int): (c: Channel)
    ensures c == Red <==> channel == 1
    ensures c == Green <==> channel == 2
    ensures c == Blue <==> channel != 1 && channel != 2
  {
    if channel == 1 then Red else if channel == 2 then Green else Blue
  }

  /** How a write that the bus may refuse ends: the caller sees the bus's
      exception unless the write is accepted. */
  function WriteOutcome(accepted: bool): (o: Outcome)
    ensures o == Ok <==> accepted
    ensures !accepted ==> o.error == TransportError
  {
    if accepted then Ok else Raised(TransportError)
  }

  class Driver {
    var red: Byte
    var green: Byte
    var blue: Byte
    var log: seq<Event>

    /** The last call into the bus carried the current levels (whether the
        bus accepted it is the outcome of the operation that made it). */
    predicate Synced()
      reads this
    {
      |log| > 0 && log[|log| - 1] == WriteBytes(Frame(red, green, blue))
    }

    /** Appends the frame of the current levels to the bus. */
    method SendFrame()
      modifies this`log
      ensures log == old(log) + [WriteBytes(Frame(red, green, blue))]
      ensures Synced()
    {
      log := log + [WriteBytes(Frame(red, green, blue))];
    }

    /** __init__: all levels 0 and one frame of zeros sent. */
    constructor ()
      ensures red == 0 && green == 0 && blue == 0
      ensures log == [WriteBytes([0x05, 0x03, 0, 0, 0])]
      ensures Synced()
    {
      red, green, blue := 0, 0, 0;
      log := [];
      new;
      SendFrame();
      assert Frame(0, 0, 0) == [0x05, 0x03, 0, 0, 0];
    }

    /** set_red: only red changes, then one frame is sent; a refused write
        raises, with the field already updated. */
    method SetRed(r: Byte, accepted: bool) returns (outcome: Outcome)
      modifies this`red, this`log
      ensures red == r && green == old(green) && blue == old(blue)
      ensures log == old(log) + [WriteBytes(Frame(r, old(green), old(blue)))]
      ensures Synced()
      ensures outcome == WriteOutcome(accepted)
    {
      red := r;
      SendFrame();
      outcome := WriteOutcome(accepted);
    }

    /** set_green: only green changes, then one frame is sent. */
    method SetGreen(g: Byte, accepted: bool) returns (outcome: Outcome)
      modifies this`green, this`log
      ensures green == g && red == old(red) && blue == old(blue)
      ensures log == old(log) + [WriteBytes(Frame(old(red), g, old(blue)))]
      ensures Synced()
      ensures outcome == WriteOutcome(accepted)
    {
      green := g;
      SendFrame();
      outcome := WriteOutcome(accepted);
    }

    /** set_blue: only blue changes, then one frame is sent. */
    method SetBlue(b: Byte, accepted: bool) returns (outcome: Outcome)
      modifies this`blue, this`log
      ensures blue == b && red == old(red) && green == old(green)
      ensures log == old(log) + [WriteBytes(Frame(old(red), old(green), b))]
      ensures Synced()
      ensures outcome == WriteOutcome(accepted)
    {
      blue := b;
      SendFrame();
      outcome := WriteOutcome(accepted);
    }

    /** set_rgb: the levels become exactly (r, g, b), then one frame. */
    method SetRgb(r: Byte, g: Byte, b: Byte, accepted: bool) returns (outcome: Outcome)
      modifies this`red, this`green, this`blue, this`log
      ensures red == r && green == g && blue == b
      ensures log == old(log) + [WriteBytes(Frame(r, g, b))]
      ensures Synced()
      ensures outcome == WriteOutcome(accepted)
    {
      red := r;
      green := g;
      blue := b;
      SendFrame();
      outcome := WriteOutcome(accepted);
    }

    /** set_channel as it stands: `channel` is read before anything else
        and is bound nowhere, so every call raises NameError and neither the
        levels nor the bus change. */
    method SetChannelAsWritten(value: Byte) returns (outcome: Outcome)
      ensures outcome == Raised(NameError)
    {
      outcome := Raised(NameError);
    }

    /** set_channel with the channel number as the argument it evidently
        was meant to be: the chosen channel alone changes, then one frame. */
    method SetChannel(channel: int, value: Byte, accepted: bool) returns (outcome: Outcome)
      modifies this`red, this`green, this`blue, this`log
      ensures match ChannelOf(channel)
              case Red => red == value && green == old(green) && blue == old(blue)
              case Green => green == value && red == old(red) && blue == old(blue)
              case Blue => blue == value && red == old(red) && green == old(green)
      ensures log == old(log) + [WriteBytes(Frame(red, green, blue))]
      ensures Synced()
      ensures outcome == WriteOutcome(accepted)
    {
      if channel == 1 {
        red := value;
      } else if channel == 2 {
        green := value;
      } else {
        blue := value;
      }
      SendFrame();
      outcome := WriteOutcome(accepted);
    }

    /** set_all_channel: all three levels become `value`, one frame is
        sent, and a refused write is swallowed. */
    method SetAllChannel(value: Byte, accepted: bool) returns (outcome: Outcome)
      modifies this`red, this`green, this`blue, this`log
      ensures red == value && green == value && blue == value
      ensures log == old(log) + [WriteBytes(Frame(value, value, value))]
      ensures Synced()
      ensures outcome == Ok
    {
      red := value;
      green := value;
      blue := value;
      SendFrame();
      outcome := Ok;
    }
  }
}
