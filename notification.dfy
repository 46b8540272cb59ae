/**
 * The notifications the micro:bit sends on its TX characteristic and what
 * `readTx` does with them. A notification holds four slices of five bytes,
 * one per puck channel: four data bytes, then the puck-status byte whose low
 * three bits tag the report. A product-id report (tag 3) and a checksum
 * report (tag 2) only update the channel's latches; a status report (tag 1)
 * is shown together with the latched values; anything else is a position
 * report. Every notification counts one up on the log counter.
 */
module Notification {
  import opened JsRuntime
  import opened Arith
  import opened Bits
  import opened TextFormat
  import opened HexCodec
  import opened PuckStatus

  /** One channel's latched values: the product id and checksum text,
      `None` while the page has not seen one (the variable is still
      `undefined`), and the maximum sound index. */
  datatype Latch = Latch(productId: Option<string>, checksum: Option<string>, maxIndex: nat)

  /** The values the page starts with. */
  const InitialLatch := Latch(None, None, 0)

  /** What a slice shows in its channel's report line. */
  datatype Report =
    | ProductIdLatched
    | ChecksumLatched
    | Status(error: bool, volume: byte, battery: nat, text: string)
    | Position(angle: nat, positionId: nat, text: string)

  /** Everything one slice puts on the page: its report and the puck line. */
  datatype ChannelView = ChannelView(report: Report, puckText: string)

  // ---------------------------------------------------------------------------
  // Reference definitions, in terms of the bytes' values

  /** The five bytes of channel `i`. */
  function SliceAt(frame: seq<byte>, i: nat): (s: seq<byte>)
    requires 5 * i + 5 <= |frame|
    ensures |s| == 5 && forall k :: 0 <= k < 5 ==> s[k] == frame[5 * i + k]
  {
    frame[5 * i..5 * i + 5]
  }

  /** How many channels a notification gets through: `getUint8` past the end
      of the value throws, so a short value stops before the first channel
      whose five bytes it does not hold; bytes past the twentieth are never
      read. */
  function ChannelCount(frame: seq<byte>): (n: nat)
    ensures n <= 4 && 5 * n <= |frame|
    ensures n < 4 ==> |frame| < 5 * n + 5
  {
    if |frame| >= 20 then 4 else |frame| / 5
  }

  /** The latch after one slice: a product-id report stores the hexadecimal
      text of bytes 3, 2, 1, 0, a checksum report the text of bytes 1, 0 and
      the sixteen-bit max index of bytes 3 (high) and 2; any other report
      leaves the latch alone. */
  function NextLatch(latch: Latch, s: seq<byte>): Latch
    requires |s| == 5
  {
    var tag := s[4] as nat % 8;
    if tag == 3 then latch.(productId := Some(HexEncode([s[3], s[2], s[1], s[0]])))
    else if tag == 2 then
      latch.(checksum := Some(HexEncode([s[1], s[0]])), maxIndex := s[3] as nat * 256 + s[2] as nat)
    else latch
  }

  /** What JavaScript prints for a latch text: the text, or "undefined". */
  function LatchText(value: Option<string>): string {
    match value
    case None => "undefined"
    case Some(text) => text
  }

  /** The status line: the status word, the channel's latches and the
      volume. */
  function StatusText(error: bool, latch: Latch, volume: byte): string {
    " " + (if error then "Error!" else "Ready")
    + " PID:" + LatchText(latch.productId)
    + " CS:0x" + LatchText(latch.checksum)
    + " Max.index:" + ToRadixString(latch.maxIndex, 10)
    + " Vol:" + ToRadixString(volume as nat, 10)
  }

  /** The position line. */
  function PositionText(angle: nat, positionId: nat): string {
    " A:" + ToRadixString(angle, 10) + " P:" + ToRadixString(positionId, 10)
  }

  /** The report of one slice, read with the channel's latch as it stands:
      a status report says "Error!" when bit 0 of byte 3 is set, carries the
      volume of byte 2 and the sixteen-bit battery reading of bytes 1 (high)
      and 0; a position report carries the nine low bits of the word of
      bytes 3 and 2 as the angle and the word of bytes 1 and 0 as the
      position code. */
  function SliceReport(latch: Latch, s: seq<byte>): Report
    requires |s| == 5
  {
    var tag := s[4] as nat % 8;
    if tag == 3 then ProductIdLatched
    else if tag == 2 then ChecksumLatched
    else if tag == 1 then
      var error := s[3] as nat % 2 == 1;
      Status(error, s[2], s[1] as nat * 256 + s[0] as nat, StatusText(error, latch, s[2]))
    else
      var angle := (s[3] as nat * 256 + s[2] as nat) % 512;
      var positionId := s[1] as nat * 256 + s[0] as nat;
      Position(angle, positionId, PositionText(angle, positionId))
  }

  function SliceView(latch: Latch, s: seq<byte>): ChannelView
    requires |s| == 5
  {
    ChannelView(SliceReport(latch, s), " " + DecodePuckState(s[4]))
  }

  /** The four latches after a notification. */
  function FrameLatches(latches: seq<Latch>, frame: seq<byte>): (after: seq<Latch>)
    requires |latches| == 4
    ensures |after| == 4
  {
    seq(4, j requires 0 <= j < 4 =>
      if j < ChannelCount(frame) then NextLatch(latches[j], SliceAt(frame, j)) else latches[j])
  }

  /** What a notification shows, channel by channel. */
  function FrameViews(latches: seq<Latch>, frame: seq<byte>): (views: seq<ChannelView>)
    requires |latches| == 4
    ensures |views| == ChannelCount(frame)
  {
    seq(ChannelCount(frame), j requires 0 <= j < ChannelCount(frame) => SliceView(latches[j], SliceAt(frame, j)))
  }

  // ---------------------------------------------------------------------------
  // The byte expressions of the source

  /** `(hi << 8) | lo` for two bytes. */
  function Word(hi: byte, lo: byte): (w: nat)
    ensures w == hi as nat * 256 + lo as nat && w < 65536
  {
    OrWord(hi as nat, lo as nat);
    Or(hi as nat * 256, lo as nat)
  }

  /** `word & 0x01FF`. */
  function AngleBits(word: nat): (angle: nat)
    ensures angle == word % 512
  {
    AndLowMask(word, 0x01FF, 512, 9);
    And(word, 0x01FF)
  }

  /** `byte & 0x01`, read as a condition. */
  function LowBitSet(b: byte): (isSet: bool)
    ensures isSet <==> b as nat % 2 == 1
  {
    AndLowMask(b as nat, 0x01, 2, 1);
    And(b as nat, 0x01) != 0
  }

  // ---------------------------------------------------------------------------
  // The session

  /** The page's state between notifications: the four channels' latches
      (module globals that nothing clears) and the notification counter. */
  class Session {
    var latches: seq<Latch>
    var logCounter: nat

    ghost predicate Valid()
      reads this
    {
      |latches| == 4
    }

    /** The page as loaded and connected: no product id or checksum seen,
        max indexes 0, and the counter set to 0 by `connect`. */
    constructor ()
      ensures Valid()
      ensures latches == [InitialLatch, InitialLatch, InitialLatch, InitialLatch]
      ensures logCounter == 0
    {
      latches := [InitialLatch, InitialLatch, InitialLatch, InitialLatch];
      logCounter := 0;
    }

    /** A later `connect`: the counter starts again at 0, the latches keep
        what earlier connections stored. */
    method Reconnect()
      requires Valid()
      modifies this
      ensures Valid()
      ensures logCounter == 0 && latches == old(latches)
    {
      logCounter := 0;
    }

    /** `readTx`: count the notification, then decode the channels in order
        until one of them would read past the end of the value. */
    method ReadTx(frame: seq<byte>) returns (views: seq<ChannelView>)
      requires Valid()
      modifies this
      ensures Valid()
      ensures logCounter == old(logCounter) + 1
      ensures latches == FrameLatches(old(latches), frame)
      ensures views == FrameViews(old(latches), frame)
    {
      logCounter := logCounter + 1;
      views := [];
      var i := 0;
      while i < 4 && 5 * i + 5 <= |frame|
        invariant i <= ChannelCount(frame)
        invariant Valid()
        invariant logCounter == old(logCounter) + 1
        invariant forall j :: 0 <= j < 4 ==>
          latches[j] == if j < i then NextLatch(old(latches)[j], SliceAt(frame, j)) else old(latches)[j]
        invariant |views| == i
        invariant forall j :: 0 <= j < i ==> views[j] == SliceView(old(latches)[j], SliceAt(frame, j))
      {
        var view := ReadChannel(frame, i);
        views := views + [view];
        i := i + 1;
      }
      assert i == ChannelCount(frame);
    }

    /** One channel's block of `readTx`: decode the channel's slice with
        its latch, store the new latch and show the report and the puck
        line. Only channel `i`'s latch changes. */
    method ReadChannel(frame: seq<byte>, i: nat) returns (view: ChannelView)
      requires Valid() && i < 4 && 5 * i + 5 <= |frame|
      modifies this
      ensures Valid()
      ensures logCounter == old(logCounter)
      ensures latches == old(latches)[i := NextLatch(old(latches)[i], SliceAt(frame, i))]
      ensures view == SliceView(old(latches)[i], SliceAt(frame, i))
    {
      var s := SliceAt(frame, i);
      var latch, report := DecodeSlice(latches[i], s);
      latches := latches[i := latch];
      view := ChannelView(report, " " + DecodePuckState(s[4]));
    }
  }

  /** The branches of one channel's block: the report tag picks the branch. */
  method DecodeSlice(latch: Latch, s: seq<byte>) returns (next: Latch, report: Report)
    requires |s| == 5
    ensures next == NextLatch(latch, s)
    ensures report == SliceReport(latch, s)
  {
    var tag := ReportTag(s[4]);
    if tag == 3 {
      next, report := DecodeProductId(latch, s);
    } else if tag == 2 {
      next, report := DecodeChecksum(latch, s);
    } else if tag == 1 {
      next, report := DecodeStatus(latch, s);
    } else {
      next, report := DecodePosition(latch, s);
    }
  }

  /** Tag 3: the product id, built digit pair by digit pair with `padHex`. */
  method DecodeProductId(latch: Latch, s: seq<byte>) returns (next: Latch, report: Report)
    requires |s| == 5 && s[4] as nat % 8 == 3
    ensures next == NextLatch(latch, s)
    ensures report == SliceReport(latch, s)
  {
    var productId := BuildProductId(s[3], s[2], s[1], s[0]);
    next := latch.(productId := Some(productId));
    report := ProductIdLatched;
  }

  /** Tag 2: the checksum, built with `padHex`, and the max index word. */
  method DecodeChecksum(latch: Latch, s: seq<byte>) returns (next: Latch, report: Report)
    requires |s| == 5 && s[4] as nat % 8 == 2
    ensures next == NextLatch(latch, s)
    ensures report == SliceReport(latch, s)
  {
    var checksum := BuildChecksum(s[1], s[0]);
    next := latch.(checksum := Some(checksum), maxIndex := Word(s[3], s[2]));
    report := ChecksumLatched;
  }

  /** Tag 1: the status word from bit 0 of byte 3, the volume and the
      battery word, quoted with the latch as it stands. */
  method DecodeStatus(latch: Latch, s: seq<byte>) returns (next: Latch, report: Report)
    requires |s| == 5 && s[4] as nat % 8 == 1
    ensures next == NextLatch(latch, s)
    ensures report == SliceReport(latch, s)
  {
    var error := LowBitSet(s[3]);
    var volume := s[2];
    var battery := Word(s[1], s[0]);
    next := latch;
    report := Status(error, volume, battery, StatusText(error, latch, volume));
  }

  /** Any other tag: the masked angle and the position word. */
  method DecodePosition(latch: Latch, s: seq<byte>) returns (next: Latch, report: Report)
    requires |s| == 5 && !(1 <= s[4] as nat % 8 <= 3)
    ensures next == NextLatch(latch, s)
    ensures report == SliceReport(latch, s)
  {
    var angle := AngleBits(Word(s[3], s[2]));
    var positionId := Word(s[1], s[0]);
    PositionReport(latch, s);
    next := latch;
    report := Position(angle, positionId, PositionText(angle, positionId));
  }

  /** Proof helper for `DecodePosition`: the report of a position slice as
      one literal, with the byte expressions written as arithmetic. It
      repeats `PositionRule` in the shape the method's postcondition needs,
      and is kept separate to bound the method's verification cost. */
  lemma PositionReport(latch: Latch, s: seq<byte>)
    requires |s| == 5 && !(1 <= s[4] as nat % 8 <= 3)
    ensures NextLatch(latch, s) == latch
    ensures var angle, positionId := (s[3] as nat * 256 + s[2] as nat) % 512, s[1] as nat * 256 + s[0] as nat;
      SliceReport(latch, s) == Position(angle, positionId, PositionText(angle, positionId))
  {
  }

  /** The product id text, built digit pair by digit pair with `padHex`
      from byte 3 down to byte 0. */
  method BuildProductId(b3: byte, b2: byte, b1: byte, b0: byte) returns (productId: string)
    ensures productId == HexEncode([b3, b2, b1, b0])
  {
    productId := "";
    productId := productId + PadHex(b3 as nat);
    productId := productId + PadHex(b2 as nat);
    productId := productId + PadHex(b1 as nat);
    productId := productId + PadHex(b0 as nat);
    ProductIdText(b3, b2, b1, b0);
  }

  /** The checksum text, built with `padHex` from byte 1 then byte 0. */
  method BuildChecksum(b1: byte, b0: byte) returns (checksum: string)
    ensures checksum == HexEncode([b1, b0])
  {
    checksum := "";
    checksum := checksum + PadHex(b1 as nat);
    checksum := checksum + PadHex(b0 as nat);
    ChecksumText(b1, b0);
  }

  /** The product id the source builds is the encoding of bytes 3, 2, 1, 0. */
  lemma ProductIdText(b3: byte, b2: byte, b1: byte, b0: byte)
    ensures "" + PadHex(b3 as nat) + PadHex(b2 as nat) + PadHex(b1 as nat) + PadHex(b0 as nat)
      == HexEncode([b3, b2, b1, b0])
  {
    PadHexOfByte(b3);
    PadHexOfByte(b2);
    PadHexOfByte(b1);
    PadHexOfByte(b0);
    HexEncodeWord(b3, b2, b1, b0);
  }

  /** The checksum the source builds is the encoding of bytes 1, 0. */
  lemma ChecksumText(b1: byte, b0: byte)
    ensures "" + PadHex(b1 as nat) + PadHex(b0 as nat) == HexEncode([b1, b0])
  {
    PadHexOfByte(b1);
    PadHexOfByte(b0);
    HexEncodePair(b1, b0);
  }

  lemma HexEncodePair(b1: byte, b0: byte)
    ensures HexEncode([b1, b0]) == ByteHex(b1) + ByteHex(b0)
  {
    assert [b0][1..] == [];
    assert HexEncode([b0]) == ByteHex(b0);
    assert [b1, b0][1..] == [b0];
  }

  lemma HexEncodeWord(b3: byte, b2: byte, b1: byte, b0: byte)
    ensures HexEncode([b3, b2, b1, b0]) == ByteHex(b3) + ByteHex(b2) + ByteHex(b1) + ByteHex(b0)
  {
    HexEncodePair(b1, b0);
    assert [b2, b1, b0][1..] == [b1, b0];
    assert HexEncode([b2, b1, b0]) == ByteHex(b2) + HexEncode([b1, b0]);
    assert [b3, b2, b1, b0][1..] == [b2, b1, b0];
  }

  // ---------------------------------------------------------------------------
  // What a slice means

  /** A product-id report latches eight hexadecimal digits that decode to
      bytes 3, 2, 1, 0 of the slice, in that order, and leaves the checksum
      and the max index as they were. */
  lemma ProductIdRule(latch: Latch, s: seq<byte>)
    requires |s| == 5 && s[4] as nat % 8 == 3
    ensures NextLatch(latch, s).productId.Some?
    ensures var id := NextLatch(latch, s).productId.value;
      |id| == 8 && AllHexDigits(id) && HexDecode(id) == [s[3], s[2], s[1], s[0]]
    ensures NextLatch(latch, s).checksum == latch.checksum
    ensures NextLatch(latch, s).maxIndex == latch.maxIndex
    ensures SliceReport(latch, s) == ProductIdLatched
  {
    HexRoundTrip([s[3], s[2], s[1], s[0]]);
  }

  /** A checksum report latches four hexadecimal digits that decode to
      bytes 1, 0 and a max index in 0..65535 whose high byte is byte 3 and
      whose low byte is byte 2; the product id stays as it was. */
  lemma ChecksumRule(latch: Latch, s: seq<byte>)
    requires |s| == 5 && s[4] as nat % 8 == 2
    ensures NextLatch(latch, s).checksum.Some?
    ensures var cs := NextLatch(latch, s).checksum.value;
      |cs| == 4 && AllHexDigits(cs) && HexDecode(cs) == [s[1], s[0]]
    ensures var m := NextLatch(latch, s).maxIndex;
      m < 65536 && m / 256 == s[3] as nat && m % 256 == s[2] as nat
    ensures NextLatch(latch, s).productId == latch.productId
    ensures SliceReport(latch, s) == ChecksumLatched
  {
    HexRoundTrip([s[1], s[0]]);
    var m := s[3] as nat * 256 + s[2] as nat;
    DivUnique(m, 256, s[3] as nat, s[2] as nat);
    ModUnique(m, 256, s[3] as nat, s[2] as nat);
  }

  /** Only product-id and checksum reports touch the latches. */
  lemma OtherReportsKeepLatch(latch: Latch, s: seq<byte>)
    requires |s| == 5
    ensures NextLatch(latch, s) != latch ==>
      SliceReport(latch, s) == ProductIdLatched || SliceReport(latch, s) == ChecksumLatched
  {
  }

  /** A status report says "Error!" exactly when bit 0 of byte 3 is set, and
      quotes the channel's latches as they stand, in JavaScript's rendering
      of an unset latch ("undefined"). */
  lemma StatusRule(latch: Latch, s: seq<byte>)
    requires |s| == 5 && s[4] as nat % 8 == 1
    ensures var r := SliceReport(latch, s);
      r.Status? && (r.error <==> s[3] as nat % 2 == 1) && r.volume == s[2]
      && r.battery < 65536 && r.battery / 256 == s[1] as nat && r.battery % 256 == s[0] as nat
    ensures SliceReport(latch, s).text ==
      " " + (if s[3] as nat % 2 == 1 then "Error!" else "Ready")
      + " PID:" + (if latch.productId.Some? then latch.productId.value else "undefined")
      + " CS:0x" + (if latch.checksum.Some? then latch.checksum.value else "undefined")
      + " Max.index:" + ToRadixString(latch.maxIndex, 10)
      + " Vol:" + ToRadixString(s[2] as nat, 10)
  {
    var b := s[1] as nat * 256 + s[0] as nat;
    DivUnique(b, 256, s[1] as nat, s[0] as nat);
    ModUnique(b, 256, s[1] as nat, s[0] as nat);
  }

  /** A position report: the angle is the nine low bits of the word of
      bytes 3 and 2, so bit 0 of byte 3 and all of byte 2, never above 511
      and not clamped to a circle's 359; the position code is the word of
      bytes 1 and 0. */
  lemma PositionRule(latch: Latch, s: seq<byte>)
    requires |s| == 5 && !(1 <= s[4] as nat % 8 <= 3)
    ensures var r := SliceReport(latch, s);
      r.Position? && r.angle == s[3] as nat % 2 * 256 + s[2] as nat && r.angle <= 511
      && r.positionId < 65536 && r.positionId / 256 == s[1] as nat && r.positionId % 256 == s[0] as nat
  {
    var w := s[3] as nat * 256 + s[2] as nat;
    var q := s[3] as nat / 2;
    DivMod(s[3] as nat, 2);
    assert w == q * 512 + (s[3] as nat % 2 * 256 + s[2] as nat);
    ModUnique(w, 512, q, s[3] as nat % 2 * 256 + s[2] as nat);
    var p := s[1] as nat * 256 + s[0] as nat;
    DivUnique(p, 256, s[1] as nat, s[0] as nat);
    ModUnique(p, 256, s[1] as nat, s[0] as nat);
  }

  /** An angle above 359 reaches the page: bit 0 of byte 3 set and byte 2
      at 0xFF reads as 511. */
  lemma AngleNotClamped()
    ensures SliceReport(InitialLatch, [0, 0, 0xFF, 0x01, 0x00]).angle == 511
  {
    PositionRule(InitialLatch, [0, 0, 0xFF, 0x01, 0x00]);
  }

  // ---------------------------------------------------------------------------
  // The slices a puck sends, and reading them back

  /** A product-id slice for the id `id`, most significant byte first,
      under a status byte tagged 3. */
  function ProductIdSlice(id: seq<byte>, status: byte): (s: seq<byte>)
    requires |id| == 4 && status as nat % 8 == 3
    ensures |s| == 5
  {
    [id[3], id[2], id[1], id[0], status]
  }

  /** A checksum slice: the checksum, most significant byte first, and the
      max index, under a status byte tagged 2. */
  function ChecksumSlice(checksum: seq<byte>, maxIndex: nat, status: byte): (s: seq<byte>)
    requires |checksum| == 2 && maxIndex < 65536 && status as nat % 8 == 2
    ensures |s| == 5
  {
    [checksum[1], checksum[0], (maxIndex % 256) as byte, (maxIndex / 256) as byte, status]
  }

  /** A status slice, under a status byte tagged 1. */
  function StatusSlice(error: bool, volume: byte, battery: nat, status: byte): (s: seq<byte>)
    requires battery < 65536 && status as nat % 8 == 1
    ensures |s| == 5
  {
    [(battery % 256) as byte, (battery / 256) as byte, volume, if error then 1 else 0, status]
  }

  /** A position slice, under a status byte with any tag the page reads as
      a position. */
  function PositionSlice(angle: nat, positionId: nat, status: byte): (s: seq<byte>)
    requires angle < 512 && positionId < 65536 && !(1 <= status as nat % 8 <= 3)
    ensures |s| == 5
  {
    [(positionId % 256) as byte, (positionId / 256) as byte, (angle % 256) as byte, (angle / 256) as byte, status]
  }

  /** The page latches the id a product-id slice carries. */
  lemma ProductIdSliceRead(latch: Latch, id: seq<byte>, status: byte)
    requires |id| == 4 && status as nat % 8 == 3
    ensures NextLatch(latch, ProductIdSlice(id, status)) == latch.(productId := Some(HexEncode(id)))
    ensures SliceReport(latch, ProductIdSlice(id, status)) == ProductIdLatched
  {
    var s := ProductIdSlice(id, status);
    assert [s[3], s[2], s[1], s[0]] == id;
  }

  /** The page latches the checksum and the max index a checksum slice
      carries. */
  lemma ChecksumSliceRead(latch: Latch, checksum: seq<byte>, maxIndex: nat, status: byte)
    requires |checksum| == 2 && maxIndex < 65536 && status as nat % 8 == 2
    ensures NextLatch(latch, ChecksumSlice(checksum, maxIndex, status))
      == latch.(checksum := Some(HexEncode(checksum)), maxIndex := maxIndex)
    ensures SliceReport(latch, ChecksumSlice(checksum, maxIndex, status)) == ChecksumLatched
  {
    var s := ChecksumSlice(checksum, maxIndex, status);
    assert [s[1], s[0]] == checksum;
    SplitWord(maxIndex, s[3], s[2]);
  }

  /** The page reports the status, volume and battery reading a status
      slice carries, quoting the latch, which stays as it was. */
  lemma StatusSliceRead(latch: Latch, error: bool, volume: byte, battery: nat, status: byte)
    requires battery < 65536 && status as nat % 8 == 1
    ensures NextLatch(latch, StatusSlice(error, volume, battery, status)) == latch
    ensures SliceReport(latch, StatusSlice(error, volume, battery, status))
      == Status(error, volume, battery, StatusText(error, latch, volume))
  {
    var s := StatusSlice(error, volume, battery, status);
    SplitWord(battery, s[1], s[0]);
  }

  /** The page reports the angle and the position code a position slice
      carries. */
  lemma PositionSliceRead(latch: Latch, angle: nat, positionId: nat, status: byte)
    requires angle < 512 && positionId < 65536 && !(1 <= status as nat % 8 <= 3)
    ensures NextLatch(latch, PositionSlice(angle, positionId, status)) == latch
    ensures SliceReport(latch, PositionSlice(angle, positionId, status))
      == Position(angle, positionId, PositionText(angle, positionId))
  {
    var s := PositionSlice(angle, positionId, status);
    PositionRule(latch, s);
    SplitWord(positionId, s[1], s[0]);
    SplitWord(angle, s[3], s[2]);
    assert s[3] as nat % 2 == s[3] as nat;
  }

  /** Conversely, every position slice is the slice of what the page reads
      from it, up to the seven high bits of byte 3, which the page
      ignores. */
  lemma PositionSliceOfReport(latch: Latch, s: seq<byte>)
    requires |s| == 5 && !(1 <= s[4] as nat % 8 <= 3)
    ensures var r := SliceReport(latch, s);
      r.Position? && r.angle < 512 && r.positionId < 65536
      && PositionSlice(r.angle, r.positionId, s[4]) == [s[0], s[1], s[2], (s[3] as nat % 2) as byte, s[4]]
  {
    PositionRule(latch, s);
    var r := SliceReport(latch, s);
    DivUnique(r.angle, 256, s[3] as nat % 2, s[2] as nat);
    ModUnique(r.angle, 256, s[3] as nat % 2, s[2] as nat);
  }

  /** A number below 65536 is the word of its high and low bytes. */
  lemma SplitWord(w: nat, hi: byte, lo: byte)
    requires w < 65536 && hi as nat == w / 256 && lo as nat == w % 256
    ensures w == hi as nat * 256 + lo as nat
  {
    DivMod(w, 256);
  }

  /** The puck line of a slice shows the state its status byte encodes. */
  lemma PuckLine(latch: Latch, s: seq<byte>)
    requires |s| == 5
    ensures SliceView(latch, s).puckText == " " + PuckStateText(PuckStateOf(s[4]))
  {
    DecodePuckStateMeaning(s[4]);
  }

  // ---------------------------------------------------------------------------
  // Whole notifications

  /** Bytes past the twentieth are never read. */
  lemma ExtraBytesIgnored(latches: seq<Latch>, frame: seq<byte>)
    requires |latches| == 4 && |frame| >= 20
    ensures FrameLatches(latches, frame) == FrameLatches(latches, frame[..20])
    ensures FrameViews(latches, frame) == FrameViews(latches, frame[..20])
  {
    forall j | 0 <= j < 4 ensures SliceAt(frame, j) == SliceAt(frame[..20], j) {
    }
  }

  /** A channel's latch and view depend on nothing but that channel's own
      slice and latch. */
  lemma ChannelLocality(latches: seq<Latch>, frame: seq<byte>, latches': seq<Latch>, frame': seq<byte>, j: nat)
    requires |latches| == 4 && |latches'| == 4
    requires j < ChannelCount(frame) && j < ChannelCount(frame')
    requires latches[j] == latches'[j] && frame[5 * j..5 * j + 5] == frame'[5 * j..5 * j + 5]
    ensures FrameLatches(latches, frame)[j] == FrameLatches(latches', frame')[j]
    ensures FrameViews(latches, frame)[j] == FrameViews(latches', frame')[j]
  {
  }

  /** The latches after a run of notifications, oldest first: the latches
      are page globals that every notification updates and nothing clears. */
  function LatchesAfter(latches: seq<Latch>, frames: seq<seq<byte>>): (after: seq<Latch>)
    requires |latches| == 4
    ensures |after| == 4
    decreases |frames|
  {
    if frames == [] then latches else LatchesAfter(FrameLatches(latches, frames[0]), frames[1..])
  }

  /** Whether a notification carries a product-id report on channel `j`. */
  predicate ReportsProductId(frame: seq<byte>, j: nat) {
    j < ChannelCount(frame) && SliceAt(frame, j)[4] as nat % 8 == 3
  }

  /** A latched product id stays until the same channel reports another one:
      checksum, status and position reports, and notifications too short to
      reach the channel, leave it alone. */
  lemma {:induction false} ProductIdPersists(latches: seq<Latch>, frames: seq<seq<byte>>, j: nat)
    requires |latches| == 4 && j < 4
    requires forall m :: 0 <= m < |frames| ==> !ReportsProductId(frames[m], j)
    ensures LatchesAfter(latches, frames)[j].productId == latches[j].productId
    decreases |frames|
  {
    if frames != [] {
      var next := FrameLatches(latches, frames[0]);
      assert !ReportsProductId(frames[0], j);
      if j < ChannelCount(frames[0]) {
        var s := SliceAt(frames[0], j);
        if s[4] as nat % 8 == 2 {
          ChecksumRule(latches[j], s);
        }
      }
      assert next[j].productId == latches[j].productId;
      var rest := frames[1..];
      assert forall m :: 0 <= m < |rest| ==> rest[m] == frames[m + 1];
      ProductIdPersists(next, rest, j);
    }
  }

  /** A status report quotes the product id the same channel latched from an
      earlier notification, however many notifications came in between, as
      long as none of them reported another product id on that channel. */
  lemma StatusQuotesLatchedId(latches: seq<Latch>, first: seq<byte>, middle: seq<seq<byte>>,
                              second: seq<byte>, j: nat)
    requires |latches| == 4 && ReportsProductId(first, j)
    requires forall m :: 0 <= m < |middle| ==> !ReportsProductId(middle[m], j)
    requires j < ChannelCount(second) && SliceAt(second, j)[4] as nat % 8 == 1
    ensures var s := SliceAt(first, j);
      var before := LatchesAfter(FrameLatches(latches, first), middle);
      before[j].productId == Some(HexEncode([s[3], s[2], s[1], s[0]]))
      && FrameViews(before, second)[j].report.text
         == StatusText(SliceAt(second, j)[3] as nat % 2 == 1, before[j], SliceAt(second, j)[2])
  {
    FirstLatchesId(latches, first, j);
    ProductIdPersists(FrameLatches(latches, first), middle, j);
    StatusQuotesLatches(LatchesAfter(FrameLatches(latches, first), middle), second, j);
  }

  lemma FirstLatchesId(latches: seq<Latch>, first: seq<byte>, j: nat)
    requires |latches| == 4 && ReportsProductId(first, j)
    ensures var s := SliceAt(first, j);
      FrameLatches(latches, first)[j].productId == Some(HexEncode([s[3], s[2], s[1], s[0]]))
  {
    assert FrameLatches(latches, first)[j] == NextLatch(latches[j], SliceAt(first, j));
  }

  lemma StatusQuotesLatches(before: seq<Latch>, second: seq<byte>, j: nat)
    requires |before| == 4 && j < ChannelCount(second) && SliceAt(second, j)[4] as nat % 8 == 1
    ensures FrameViews(before, second)[j].report.text
      == StatusText(SliceAt(second, j)[3] as nat % 2 == 1, before[j], SliceAt(second, j)[2])
  {
    var s2 := SliceAt(second, j);
    assert FrameViews(before, second)[j] == SliceView(before[j], s2);
  }
}
