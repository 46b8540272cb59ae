/**
 * The sixteen-byte command `writeCmd` sends to the micro:bit: four slices of
 * four bytes, one per puck channel, filled from that channel's controls. The
 * last byte of a slice carries the command code in its high nibble; the
 * first three carry the command's arguments, or stay zero.
 */
module CommandFrame {
  import opened JsRuntime
  import opened Arith
  import opened Bits
  import opened HexCodec

  /** The values `writeCmd` reads from one channel's page controls: the
      command selector, the colour picker's text, the LED pattern, the sound
      index and volume, and the loop checkbox. */
  datatype ChannelControls = ChannelControls(
    cmd: int, color: string, pattern: int, soundIndex: int, soundVolume: int, loopChecked: bool)

  /** What one slice asks the puck to do. */
  datatype Command =
    | LedSet(red: byte, green: byte, blue: byte, pattern: nat)
    | SoundSet(index: nat, volume: byte, loop: bool)
    | InfoGet
    | CommandOnly(code: nat)

  predicate ValidCommand(c: Command) {
    match c
    case LedSet(_, _, _, pattern) => pattern < 16
    case SoundSet(index, _, _) => index < 65536
    case InfoGet => true
    case CommandOnly(code) => code < 16
  }

  /** The command the controls select, by the source's `== 4`, `== 5`,
      `== 6` dispatch; `None` when LED set is selected and the colour text is
      not a colour, where `hexToRgb` returns null and reading `.b` from it
      throws, so that nothing is sent. */
  function RequestedCommand(c: ChannelControls): (r: Option<Command>)
    ensures r.None? <==> c.cmd == 4 && HexToRgb(c.color).None?
    ensures r.Some? ==> ValidCommand(r.value)
  {
    if c.cmd == 4 then
      match HexToRgb(c.color)
      case None => None
      case Some(rgb) => Some(LedSet(ToUint8(rgb.r), ToUint8(rgb.g), ToUint8(rgb.b), c.pattern % 16))
    else if c.cmd == 5 then Some(SoundSet(c.soundIndex % 65536, ToUint8(c.soundVolume), c.loopChecked))
    else if c.cmd == 6 then Some(InfoGet)
    else Some(CommandOnly(c.cmd % 16))
  }

  /** The four bytes of a command on the wire: blue, green, red and code 4
      with the pattern; the index low byte first, the volume and code 5 with
      the loop bit; code 6 alone; any other code alone. */
  function CommandBytes(c: Command): (s: seq<byte>)
    requires ValidCommand(c)
    ensures |s| == 4
  {
    match c
    case LedSet(red, green, blue, pattern) => [blue, green, red, (0x40 + pattern) as byte]
    case SoundSet(index, volume, loop) =>
      [(index % 256) as byte, (index / 256) as byte, volume, (0x50 + if loop then 1 else 0) as byte]
    case InfoGet => [0, 0, 0, 0x60]
    case CommandOnly(code) => [0, 0, 0, (code * 16) as byte]
  }

  /** How the receiving side reads a slice: the command by the high nibble of
      the last byte, then its arguments. */
  function DecodeCommandBytes(s: seq<byte>): (c: Command)
    requires |s| == 4
    ensures ValidCommand(c)
  {
    var code := s[3] as nat / 16;
    if code == 4 then LedSet(s[2], s[1], s[0], s[3] as nat % 16)
    else if code == 5 then SoundSet(s[0] as nat + 256 * s[1] as nat, s[2], s[3] as nat % 2 == 1)
    else if code == 6 then InfoGet
    else CommandOnly(code)
  }

  /** All four channels select something that can be sent. */
  predicate Sendable(controls: seq<ChannelControls>) {
    forall i :: 0 <= i < |controls| ==> RequestedCommand(controls[i]).Some?
  }

  /** With four channels, sendable means each of the four has a command. */
  lemma SendableChannels(controls: seq<ChannelControls>)
    requires |controls| == 4
    ensures Sendable(controls) <==>
      RequestedCommand(controls[0]).Some? && RequestedCommand(controls[1]).Some?
      && RequestedCommand(controls[2]).Some? && RequestedCommand(controls[3]).Some?
  {
    if !Sendable(controls) {
      var i :| 0 <= i < 4 && RequestedCommand(controls[i]).None?;
      assert i == 0 || i == 1 || i == 2 || i == 3;
    }
  }

  /** The four bytes a channel's block leaves in its zeroed slice: its
      command's bytes, or the zeros that stay when the colour lookup
      throws before anything is written. */
  function ChannelBytes(c: ChannelControls): (s: seq<byte>)
    ensures |s| == 4
  {
    match RequestedCommand(c)
    case Some(command) => CommandBytes(command)
    case None => [0, 0, 0, 0]
  }

  /** The first `n` slices of the buffer: the bytes of channels 0 to
      `n - 1`, in channel order. */
  function FramePrefix(controls: seq<ChannelControls>, n: nat): (prefix: seq<byte>)
    requires |controls| == 4 && n <= 4
    ensures |prefix| == 4 * n
  {
    if n == 0 then [] else FramePrefix(controls, n - 1) + ChannelBytes(controls[n - 1])
  }

  lemma FramePrefixStep(controls: seq<ChannelControls>, n: nat)
    requires |controls| == 4 && n < 4
    ensures FramePrefix(controls, n + 1) == FramePrefix(controls, n) + ChannelBytes(controls[n])
  {
  }

  /** The sixteen bytes for a sendable set of controls. */
  function FrameBytes(controls: seq<ChannelControls>): (frame: seq<byte>)
    requires |controls| == 4 && Sendable(controls)
    ensures |frame| == 16
  {
    FramePrefix(controls, 4)
  }

  // ---------------------------------------------------------------------------
  // The byte expressions of the source

  /** `(cmd << 4) & 0xF0`: the shift works on the 32-bit two's-complement form,
      whose low byte is `ToUint8(cmd * 16)`; the mask keeps its high nibble,
      which holds the low nibble of `cmd`. */
  function CodeNibble(cmd: int): (n: nat)
    ensures n == cmd % 16 * 16
  {
    var low := ToUint8(cmd * 16) as nat;
    AndFieldMask(low, 0xF0, 16, 4, 16, 4);
    LowNibbleShifted(cmd);
    And(low, 0xF0)
  }

  lemma LowNibbleShifted(cmd: int)
    ensures (cmd * 16) % 256 / 16 % 16 == cmd % 16
  {
    var q, r := cmd / 16, cmd % 16;
    assert cmd * 16 == q * 256 + r * 16;
    ModUnique(cmd * 16, 256, q, r * 16);
  }

  /** The last byte of a slice: the code nibble OR-ed with a low nibble. */
  function ControlByte(cmd: int, low: nat): (b: byte)
    requires low < 16
    ensures b as nat == cmd % 16 * 16 + low
  {
    ControlByteValue(cmd, low);
    ToUint8(Or(CodeNibble(cmd), low))
  }

  lemma ControlByteValue(cmd: int, low: nat)
    requires low < 16
    ensures ToUint8(Or(CodeNibble(cmd), low)) as nat == cmd % 16 * 16 + low
  {
    var n := cmd % 16;
    assert CodeNibble(cmd) == n * 16;
    OrNibble(n, low);
    var v := n * 16 + low;
    assert Or(CodeNibble(cmd), low) == v;
    DivOfSmaller(v, 256);
  }

  /** `pattern & 0x0F` on the 32-bit form, which only sees its low byte. */
  function PatternNibble(pattern: int): (n: nat)
    ensures n == pattern % 16
  {
    var low := ToUint8(pattern) as nat;
    AndLowMask(low, 0x0F, 16, 4);
    LowByteNibble(pattern);
    And(low, 0x0F)
  }

  lemma LowByteNibble(x: int)
    ensures x % 256 % 16 == x % 16
  {
    var q, w := x / 256, x % 256;
    assert x == (q * 16 + w / 16) * 16 + w % 16;
    ModUnique(x, 16, q * 16 + w / 16, w % 16);
  }

  /** The two low bytes of an integer are those of its value modulo 65536. */
  lemma LowWord(x: int)
    ensures x % 65536 % 256 == x % 256 && x % 65536 / 256 == x / 256 % 256
  {
    var q, w := x / 65536, x % 65536;
    var hi, lo := w / 256, w % 256;
    assert x == (q * 256 + hi) * 256 + lo;
    ModUnique(x, 256, q * 256 + hi, lo);
    DivUnique(x, 256, q * 256 + hi, lo);
    ModUnique(x / 256, 256, q, hi);
  }

  /** `x & 0x00FF` on the 32-bit form of `x`, which only sees its low byte. */
  function LowByte(x: int): (b: byte)
    ensures b as int == x % 256
  {
    var v := ToUint8(x) as nat;
    AndLowMask(v, 0xFF, 256, 8);
    DivOfSmaller(v, 256);
    And(v, 0xFF) as byte
  }

  /** `(index >> 0) & 0x00FF` and `(index >> 8) & 0x00FF`: the two low
      bytes of the 32-bit form, low first. */
  function IndexBytes(index: int): (s: seq<byte>)
    ensures |s| == 2 && s[0] as nat == index % 256 && s[1] as nat == index / 256 % 256
  {
    [LowByte(index), LowByte(index / 256)]
  }

  /** The two bytes are those of the index modulo 65536, the value a sound
      set command carries. */
  lemma IndexWord(index: int)
    ensures IndexBytes(index) == [(index % 65536 % 256) as byte, (index % 65536 / 256) as byte]
  {
    var s := IndexBytes(index);
    LowWord(index);
    assert s[0] == (index % 65536 % 256) as byte;
    assert s[1] == (index % 65536 / 256) as byte;
  }

  // ---------------------------------------------------------------------------
  // writeCmd

  /** `writeCmd`'s buffer: a zeroed sixteen-byte `DataView`, then the four
      channel blocks in order, each writing its slice by the branch its
      selector picks. `None` when
      an LED set channel has no valid colour: the exception leaves the
      buffer unsent. */
  method WriteCmd(controls: seq<ChannelControls>) returns (txData: Option<array<byte>>)
    requires |controls| == 4
    ensures txData.None? <==> !Sendable(controls)
    ensures txData.Some? ==> txData.value[..] == FrameBytes(controls)
    ensures txData.Some? ==> fresh(txData.value)
  {
    SendableChannels(controls);
    var buffer := new byte[16](_ => 0);
    var ok := WriteSlice(buffer, 0, controls[0]);
    if !ok {
      return None;
    }
    FramePrefixStep(controls, 0);
    assert buffer[..4] == FramePrefix(controls, 1);
    ok := WriteSlice(buffer, 1, controls[1]);
    if !ok {
      return None;
    }
    FramePrefixStep(controls, 1);
    assert buffer[..8] == FramePrefix(controls, 2);
    ok := WriteSlice(buffer, 2, controls[2]);
    if !ok {
      return None;
    }
    FramePrefixStep(controls, 2);
    assert buffer[..12] == FramePrefix(controls, 3);
    ok := WriteSlice(buffer, 3, controls[3]);
    if !ok {
      return None;
    }
    FramePrefixStep(controls, 3);
    assert buffer[..16] == FramePrefix(controls, 4);
    assert buffer[..] == buffer[..16];
    return Some(buffer);
  }

  /** One channel's block of `writeCmd`: `false` where the colour lookup
      throws; otherwise the bytes of slice `i` are the channel's command,
      the slices before it are kept and the bytes after it are still zero. */
  method WriteSlice(txData: array<byte>, i: nat, c: ChannelControls) returns (ok: bool)
    requires txData.Length == 16 && i < 4
    requires forall p :: 4 * i <= p < 16 ==> txData[p] == 0
    modifies txData
    ensures ok <==> RequestedCommand(c).Some?
    ensures ok ==> txData[..4 * i + 4] == old(txData[..4 * i]) + ChannelBytes(c)
    ensures ok ==> forall p :: 4 * i + 4 <= p < 16 ==> txData[p] == 0
  {
    if c.cmd == 4 {
      var rgb := HexToRgb(c.color);
      if rgb.None? {
        return false;
      }
      WriteLedSlice(txData, i, c, rgb.value);
    } else if c.cmd == 5 {
      WriteSoundSlice(txData, i, c);
    } else {
      WriteCodeSlice(txData, i, c);
    }
    ok := true;
  }

  /** The LED branch's four `setUint8` calls: blue, green, red, then the
      code nibble with the pattern. */
  method WriteLedSlice(txData: array<byte>, i: nat, c: ChannelControls, rgb: Rgb)
    requires txData.Length == 16 && i < 4
    requires forall p :: 4 * i <= p < 16 ==> txData[p] == 0
    requires c.cmd == 4 && HexToRgb(c.color) == Some(rgb)
    modifies txData
    ensures RequestedCommand(c).Some?
    ensures txData[..4 * i + 4] == old(txData[..4 * i]) + ChannelBytes(c)
    ensures forall p :: 4 * i + 4 <= p < 16 ==> txData[p] == 0
  {
    ghost var before := txData[..];
    var o := 4 * i;
    txData[o] := ToUint8(rgb.b);
    txData[o + 1] := ToUint8(rgb.g);
    txData[o + 2] := ToUint8(rgb.r);
    txData[o + 3] := ControlByte(c.cmd, PatternNibble(c.pattern));
    LedChannelBytes(c, rgb);
    SliceWritten(before, txData[..], o,
      [ToUint8(rgb.b), ToUint8(rgb.g), ToUint8(rgb.r), ControlByte(c.cmd, PatternNibble(c.pattern))]);
  }

  /** The sound branch's four `setUint8` calls: the index low and high
      bytes, the volume, then the code nibble with the loop bit. */
  method WriteSoundSlice(txData: array<byte>, i: nat, c: ChannelControls)
    requires txData.Length == 16 && i < 4
    requires forall p :: 4 * i <= p < 16 ==> txData[p] == 0
    requires c.cmd == 5
    modifies txData
    ensures RequestedCommand(c).Some?
    ensures txData[..4 * i + 4] == old(txData[..4 * i]) + ChannelBytes(c)
    ensures forall p :: 4 * i + 4 <= p < 16 ==> txData[p] == 0
  {
    ghost var before := txData[..];
    var o := 4 * i;
    var indexBytes := IndexBytes(c.soundIndex);
    IndexWord(c.soundIndex);
    txData[o] := indexBytes[0];
    txData[o + 1] := indexBytes[1];
    txData[o + 2] := ToUint8(c.soundVolume);
    if c.loopChecked {
      txData[o + 3] := ControlByte(c.cmd, 0x01);
    } else {
      txData[o + 3] := ControlByte(c.cmd, 0x00);
    }
    SoundChannelBytes(c);
    SliceWritten(before, txData[..], o,
      [indexBytes[0], indexBytes[1], ToUint8(c.soundVolume), ControlByte(c.cmd, if c.loopChecked then 0x01 else 0x00)]);
  }

  /** The single `setUint8` of the information request and of every other
      code: the code nibble alone, in the last byte of the slice; the other
      three keep the zeros the buffer was created with. */
  method WriteCodeSlice(txData: array<byte>, i: nat, c: ChannelControls)
    requires txData.Length == 16 && i < 4
    requires forall p :: 4 * i <= p < 16 ==> txData[p] == 0
    requires c.cmd != 4 && c.cmd != 5
    modifies txData
    ensures RequestedCommand(c).Some?
    ensures txData[..4 * i + 4] == old(txData[..4 * i]) + ChannelBytes(c)
    ensures forall p :: 4 * i + 4 <= p < 16 ==> txData[p] == 0
  {
    ghost var before := txData[..];
    var o := 4 * i;
    txData[o + 3] := ControlByte(c.cmd, 0x00);
    CodeChannelBytes(c);
    SliceWritten(before, txData[..], o, [0, 0, 0, ControlByte(c.cmd, 0x00)]);
  }

  /** Four bytes written at `o`, and nothing changed before them, extend
      the prefix by those bytes. */
  lemma SliceWritten(before: seq<byte>, after: seq<byte>, o: nat, bytes: seq<byte>)
    requires |before| == |after| && o + 4 <= |after| && |bytes| == 4
    requires forall p :: 0 <= p < o ==> after[p] == before[p]
    requires after[o] == bytes[0] && after[o + 1] == bytes[1] && after[o + 2] == bytes[2] && after[o + 3] == bytes[3]
    ensures after[..o + 4] == before[..o] + bytes
  {
    forall p | 0 <= p < o + 4
      ensures after[..o + 4][p] == (before[..o] + bytes)[p]
    {
      if p < o {
      } else if p == o {
      } else if p == o + 1 {
      } else if p == o + 2 {
      } else {
      }
    }
  }

  /** Proof helpers for the three slice writers: the bytes each branch
      writes, as the very expressions the method stores, are its channel's
      bytes. They restate `LedSlice`, `SoundSlice` and `CodeSlice` in that
      shape and are kept separate to bound the writers' verification cost. */
  lemma LedChannelBytes(c: ChannelControls, rgb: Rgb)
    requires c.cmd == 4 && HexToRgb(c.color) == Some(rgb)
    ensures RequestedCommand(c).Some?
    ensures ChannelBytes(c)
      == [ToUint8(rgb.b), ToUint8(rgb.g), ToUint8(rgb.r), ControlByte(c.cmd, PatternNibble(c.pattern))]
  {
    var command := LedSet(ToUint8(rgb.r), ToUint8(rgb.g), ToUint8(rgb.b), c.pattern % 16);
    assert RequestedCommand(c) == Some(command);
    assert ChannelBytes(c) == CommandBytes(command);
    LedBytes(command);
    SelectorNibble(c.cmd, 4);
    var last := ControlByte(c.cmd, PatternNibble(c.pattern));
    assert CommandBytes(command)[3] == last;
  }

  lemma SoundChannelBytes(c: ChannelControls)
    requires c.cmd == 5
    ensures RequestedCommand(c).Some?
    ensures var indexBytes := IndexBytes(c.soundIndex);
      ChannelBytes(c) == [indexBytes[0], indexBytes[1], ToUint8(c.soundVolume),
                          ControlByte(c.cmd, if c.loopChecked then 0x01 else 0x00)]
  {
    SoundSlice(c);
    SelectorNibble(c.cmd, 5);
    IndexWord(c.soundIndex);
  }

  lemma CodeChannelBytes(c: ChannelControls)
    requires c.cmd != 4 && c.cmd != 5
    ensures RequestedCommand(c).Some?
    ensures ChannelBytes(c) == [0, 0, 0, ControlByte(c.cmd, 0x00)]
  {
    CodeSlice(c);
  }

  lemma SelectorNibble(cmd: int, code: nat)
    requires cmd == code && code < 16
    ensures cmd % 16 * 16 == code * 16
  {
  }

  /** The LED branch writes blue, green, red and the code with the pattern. */
  lemma LedSlice(c: ChannelControls, rgb: Rgb)
    requires c.cmd == 4 && HexToRgb(c.color) == Some(rgb)
    ensures RequestedCommand(c).Some?
    ensures var bytes := CommandBytes(RequestedCommand(c).value);
      bytes[0] == ToUint8(rgb.b) && bytes[1] == ToUint8(rgb.g) && bytes[2] == ToUint8(rgb.r)
      && bytes[3] as int == 0x40 + c.pattern % 16
  {
    var command := LedSet(ToUint8(rgb.r), ToUint8(rgb.g), ToUint8(rgb.b), c.pattern % 16);
    assert RequestedCommand(c) == Some(command);
    LedBytes(command);
  }

  /** Proof helper: the LED command's fields land in bytes 2, 1, 0 and 3.
      It is stated on the command alone, so that `LedSlice` and
      `LedChannelBytes` unfold `CommandBytes` only through it. */
  lemma LedBytes(command: Command)
    requires command.LedSet? && ValidCommand(command)
    ensures var bytes := CommandBytes(command);
      bytes[0] == command.blue && bytes[1] == command.green && bytes[2] == command.red
      && bytes[3] as int == 0x40 + command.pattern
  {
  }

  /** The sound branch writes the two bytes of the index modulo 65536, low
      first, the volume and the code with the loop bit. */
  lemma SoundSlice(c: ChannelControls)
    requires c.cmd == 5
    ensures RequestedCommand(c).Some?
    ensures var bytes := CommandBytes(RequestedCommand(c).value);
      bytes[0] as int == c.soundIndex % 65536 % 256 && bytes[1] as int == c.soundIndex % 65536 / 256
      && bytes[2] == ToUint8(c.soundVolume) && bytes[3] as int == 0x50 + if c.loopChecked then 1 else 0
  {
    assert RequestedCommand(c) == Some(SoundSet(c.soundIndex % 65536, ToUint8(c.soundVolume), c.loopChecked));
  }

  /** The information request and every other code write the code alone. */
  lemma CodeSlice(c: ChannelControls)
    requires c.cmd != 4 && c.cmd != 5
    ensures RequestedCommand(c).Some?
    ensures var bytes := CommandBytes(RequestedCommand(c).value);
      bytes[0] == 0 && bytes[1] == 0 && bytes[2] == 0 && bytes[3] as int == c.cmd % 16 * 16
  {
    if c.cmd == 6 {
      assert RequestedCommand(c) == Some(InfoGet);
    } else {
      assert RequestedCommand(c) == Some(CommandOnly(c.cmd % 16));
    }
  }

  // ---------------------------------------------------------------------------
  // Reading a slice back

  /** The receiving side reads back every command whose code is not one of
      the three dedicated codes sent as a bare code. */
  lemma CommandRoundTrip(c: Command)
    requires ValidCommand(c) && !(c.CommandOnly? && 4 <= c.code <= 6)
    ensures DecodeCommandBytes(CommandBytes(c)) == c
  {
    match c
    case LedSet(red, green, blue, pattern) =>
      assert (0x40 + pattern) / 16 == 4 && (0x40 + pattern) % 16 == pattern;
    case SoundSet(index, volume, loop) =>
      var lo, hi := index % 256, index / 256;
      DivMod(index, 256);
      assert lo + 256 * hi == index;
      assert (0x50 + if loop then 1 else 0) / 16 == 5;
    case InfoGet =>
    case CommandOnly(code) =>
      assert code * 16 / 16 == code;
  }

  /** A bare code that equals a dedicated one reads as that command with
      zero arguments: a selector whose low nibble is 4, 5 or 6 but which is
      not 4, 5 or 6 itself (20, say) takes the generic branch and still asks
      for an LED set, a sound set or an information request. */
  lemma SelectorAliasing(c: ChannelControls)
    requires 4 <= c.cmd % 16 <= 6 && !(4 <= c.cmd <= 6)
    ensures RequestedCommand(c) == Some(CommandOnly(c.cmd % 16))
    ensures DecodeCommandBytes(CommandBytes(CommandOnly(c.cmd % 16)))
      == if c.cmd % 16 == 4 then LedSet(0, 0, 0, 0)
         else if c.cmd % 16 == 5 then SoundSet(0, 0, false)
         else InfoGet
  {
    var code := c.cmd % 16;
    assert CommandBytes(CommandOnly(code)) == [0, 0, 0, (code * 16) as byte];
    assert code * 16 / 16 == code && code * 16 % 16 == 0 && code * 16 % 2 == 0;
  }

  /** A selector from 0 to 15 is read back from the last byte of its
      slice, and so is the whole command. */
  lemma SelectorRoundTrip(c: ChannelControls)
    requires 0 <= c.cmd < 16 && RequestedCommand(c).Some?
    ensures CommandBytes(RequestedCommand(c).value)[3] as nat / 16 == c.cmd
    ensures DecodeCommandBytes(CommandBytes(RequestedCommand(c).value)) == RequestedCommand(c).value
  {
    var r := RequestedCommand(c).value;
    CommandRoundTrip(r);
    if c.cmd == 4 {
      assert r.LedSet?;
    } else if c.cmd == 5 {
      assert r.SoundSet?;
    } else if c.cmd == 6 {
      assert r == InfoGet;
    } else {
      assert r == CommandOnly(c.cmd);
    }
  }

  /** Slice `j` of the command is the four bytes of channel `j`'s command. */
  lemma FrameSlice(controls: seq<ChannelControls>, j: nat)
    requires |controls| == 4 && Sendable(controls) && j < 4
    ensures FrameBytes(controls)[4 * j..4 * j + 4] == CommandBytes(RequestedCommand(controls[j]).value)
  {
    PrefixSlice(controls, 4, j);
    assert RequestedCommand(controls[j]).Some?;
  }

  lemma {:induction false} PrefixSlice(controls: seq<ChannelControls>, n: nat, j: nat)
    requires |controls| == 4 && n <= 4 && j < n
    ensures FramePrefix(controls, n)[4 * j..4 * j + 4] == ChannelBytes(controls[j])
    decreases n
  {
    var prev := FramePrefix(controls, n - 1);
    var last := ChannelBytes(controls[n - 1]);
    assert FramePrefix(controls, n) == prev + last;
    if j == n - 1 {
      SliceOfLast(prev, last, 4 * j);
    } else {
      PrefixSlice(controls, n - 1, j);
      SliceOfFront(prev, last, 4 * j);
    }
  }

  lemma SliceOfLast(front: seq<byte>, last: seq<byte>, lo: nat)
    requires |front| == lo && |last| == 4
    ensures (front + last)[lo..lo + 4] == last
  {
  }

  lemma SliceOfFront(front: seq<byte>, last: seq<byte>, lo: nat)
    requires lo + 4 <= |front|
    ensures (front + last)[lo..lo + 4] == front[lo..lo + 4]
  {
  }
}
