/**
 * The puck-status byte that ends every five-byte channel slice of a
 * notification: bit 7 says whether the puck is on the sensor, bits 6-5 carry
 * the button gesture, bits 4-3 the charger state and bits 2-0 the report
 * tag. `decodePuckState` renders bits 7-3 as the text shown on the page.
 */
module PuckStatus {
  import opened JsRuntime
  import opened Bits
  import opened Arith

  datatype Gesture = NoGesture | Press | DoublePress | LongPress
  datatype Charger = NoUsb | ChargingStop | Charging | ChargingError

  /** What bits 7-3 of a status byte say. */
  datatype PuckState = PuckState(connected: bool, gesture: Gesture, charger: Charger)

  /** `decodePuckState(stateValue)`: "C:" and ON or OFF by `& 0x80`, "B:" and
      the gesture named by `& 0x60`, "NPM:" and the charger state named by
      `& 0x18`, each word followed by one space. */
  function DecodePuckState(stateValue: byte): (text: string)
    ensures |text| >= 16
  {
    var v := stateValue as nat;
    var connection := if And(v, 0x80) != 0 then "ON " else "OFF ";
    var button := match And(v, 0x60)
      case 0x20 => "PRESS "
      case 0x40 => "DOUBLE "
      case 0x60 => "LONG "
      case _ => "NONE ";
    var charger := match And(v, 0x18)
      case 0x08 => "CHARGING STOP "
      case 0x10 => "CHARGING "
      case 0x18 => "CHARGING ERROR! "
      case _ => "NO USB ";
    "C:" + connection + "B:" + button + "NPM:" + charger
  }

  /** `stateValue & 0x07`: which kind of report the slice carries. */
  function ReportTag(stateValue: byte): (tag: nat)
    ensures tag == stateValue as nat % 8 && tag < 8
  {
    AndLowMask(stateValue as nat, 0x07, 8, 3);
    And(stateValue as nat, 0x07)
  }

  // ---------------------------------------------------------------------------
  // The status byte as fields

  function GestureCode(g: Gesture): (code: nat)
    ensures code < 4
  {
    match g
    case NoGesture => 0
    case Press => 1
    case DoublePress => 2
    case LongPress => 3
  }

  function ChargerCode(c: Charger): (code: nat)
    ensures code < 4
  {
    match c
    case NoUsb => 0
    case ChargingStop => 1
    case Charging => 2
    case ChargingError => 3
  }

  function GestureOf(code: nat): (g: Gesture)
    requires code < 4
    ensures GestureCode(g) == code
  {
    if code == 1 then Press else if code == 2 then DoublePress else if code == 3 then LongPress else NoGesture
  }

  function ChargerOf(code: nat): (c: Charger)
    requires code < 4
    ensures ChargerCode(c) == code
  {
    if code == 1 then ChargingStop else if code == 2 then Charging else if code == 3 then ChargingError else NoUsb
  }

  /** The fields of a status byte, read arithmetically from its bit positions. */
  function PuckStateOf(stateValue: byte): PuckState {
    var v := stateValue as nat;
    PuckState(v >= 128, GestureOf(v / 32 % 4), ChargerOf(v / 8 % 4))
  }

  /** The status byte a puck sends for a state and a report tag. */
  function EncodePuckState(p: PuckState, tag: nat): (b: byte)
    requires tag < 8
    ensures ReportTag(b) == tag
  {
    var high := (if p.connected then 16 else 0) + GestureCode(p.gesture) * 4 + ChargerCode(p.charger);
    ModUnique(high * 8 + tag, 8, high, tag);
    (high * 8 + tag) as byte
  }

  /** The page's wording of a state. */
  function PuckStateText(p: PuckState): string {
    "C:" + (if p.connected then "ON " else "OFF ")
    + "B:" + GestureText(p.gesture)
    + "NPM:" + ChargerText(p.charger)
  }

  function GestureText(g: Gesture): string {
    match g
    case Press => "PRESS "
    case DoublePress => "DOUBLE "
    case LongPress => "LONG "
    case NoGesture => "NONE "
  }

  function ChargerText(c: Charger): string {
    match c
    case ChargingStop => "CHARGING STOP "
    case Charging => "CHARGING "
    case ChargingError => "CHARGING ERROR! "
    case NoUsb => "NO USB "
  }

  // ---------------------------------------------------------------------------
  // Properties

  /** The text is the wording of the byte's fields: ON exactly when bit 7 is
      set, the gesture of bits 6-5 and the charger state of bits 4-3. */
  lemma DecodePuckStateMeaning(stateValue: byte)
    ensures DecodePuckState(stateValue) == PuckStateText(PuckStateOf(stateValue))
    ensures PuckStateOf(stateValue).connected <==> stateValue >= 0x80
  {
    var v := stateValue as nat;
    AndFieldMask(v, 0x80, 128, 7, 2, 1);
    AndFieldMask(v, 0x60, 32, 5, 4, 2);
    AndFieldMask(v, 0x18, 8, 3, 4, 2);
    assert And(v, 0x80) != 0 <==> v >= 128;
  }

  /** Only bits 7-3 matter: bytes that differ in the report tag alone give
      the same text. */
  lemma DecodeIgnoresTag(a: byte, b: byte)
    requires a as nat / 8 == b as nat / 8
    ensures DecodePuckState(a) == DecodePuckState(b)
  {
    HighBits(a);
    HighBits(b);
    DecodePuckStateMeaning(a);
    DecodePuckStateMeaning(b);
  }

  /** The fields read from a status byte depend on its bits 7-3 alone. */
  lemma HighBits(stateValue: byte)
    ensures var e := stateValue as nat / 8;
      PuckStateOf(stateValue) == PuckState(e >= 16, GestureOf(e / 4 % 4), ChargerOf(e % 4))
  {
    var v := stateValue as nat;
    DivDiv(v, 8, 4);
    assert v >= 128 <==> v / 8 >= 16;
  }

  /** Every status byte is the encoding of its fields and its tag. */
  lemma EncodeDecodedState(stateValue: byte)
    ensures EncodePuckState(PuckStateOf(stateValue), ReportTag(stateValue)) == stateValue
  {
    var v := stateValue as nat;
    var e, f := v / 8, v / 32;
    assert v == e * 8 + v % 8;
    assert f == e / 4;
    assert e == f * 4 + e % 4;
    assert f == v / 128 * 4 + f % 4;
    assert v / 128 == (if v >= 128 then 1 else 0);
  }

  /** Decoding an encoded status byte gives back the state. */
  lemma DecodeEncodedState(p: PuckState, tag: nat)
    requires tag < 8
    ensures PuckStateOf(EncodePuckState(p, tag)) == p
  {
    var v := EncodePuckState(p, tag) as nat;
    var g, c := GestureCode(p.gesture), ChargerCode(p.charger);
    assert v / 8 % 4 == c;
    assert v / 32 % 4 == g;
    assert GestureOf(g) == p.gesture && ChargerOf(c) == p.charger;
  }

  /** Different states read differently on the page: the text determines the
      state. */
  lemma PuckStateTextInjective(p: PuckState, q: PuckState)
    requires PuckStateText(p) == PuckStateText(q)
    ensures p == q
  {
    var t := PuckStateText(p);
    assert t[3] == (if p.connected then 'N' else 'F');
    assert PuckStateText(q)[3] == (if q.connected then 'N' else 'F');
    var k := if p.connected then 7 else 8;
    assert t[k] == GestureText(p.gesture)[0];
    assert PuckStateText(q)[k] == GestureText(q.gesture)[0];
    var pg, qg := GestureText(p.gesture), GestureText(q.gesture);
    assert |t| == k + |pg| + 4 + |ChargerText(p.charger)|;
    assert |t| == k + |qg| + 4 + |ChargerText(q.charger)|;
  }
}
