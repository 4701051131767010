/**
 * payload_decode and the three message decoders: AIS messages 1, 2 and 3
 * (position report), 4 (base station report) and 5 (static and voyage
 * related data), with the field layouts of ITU-R M.1371, Annex 8,
 * sections 3.1, 3.2 and 3.3. Every field range below names its first and
 * its last bit, as the tables of that recommendation do, and is read with
 * get_bits in its Inclusive reading.
 *
 * Decoded values are the raw integers of the message (no scaling to
 * degrees or knots). The partner of each decoder is an encoder that lays
 * the same fields out bit by bit; the round-trip lemmas show that
 * decoding an encoded message gives it back.
 */
module Messages {
  import opened AisTypes
  import opened PayloadBits

  /** 168 bits: messages 1 to 4 are 28 armored characters. */
  const PositionReportLength: nat := 28

  /** 424 bits and 2 fill bits: message 5 is 71 armored characters. */
  const StaticVoyageLength: nat := 71

  datatype PositionReport = PositionReport(
    msgType: nat, repeat: nat, mmsi: nat, navStatus: nat, rateOfTurn: int,
    speedOverGround: nat, accuracy: nat, lon: int, lat: int, courseOverGround: nat,
    heading: nat, second: nat, maneuver: nat, raim: nat, radioStatus: nat)

  datatype BaseStationReport = BaseStationReport(
    repeat: nat, mmsi: nat, year: nat, month: nat, day: nat, hour: nat, minute: nat,
    second: nat, accuracy: nat, lon: int, lat: int, epfd: nat, raim: nat, radioStatus: nat)

  datatype StaticVoyageData = StaticVoyageData(
    repeat: nat, mmsi: nat, aisVersion: nat, imo: nat, callSign: seq<char>, name: seq<char>,
    shipType: nat, toBow: nat, toStern: nat, toPort: nat, toStarboard: nat, epfd: nat,
    etaMonth: nat, etaDay: nat, etaHour: nat, etaMinute: nat, draught: nat,
    destination: seq<char>, dte: nat)

  datatype AisMessage =
    | Position(report: PositionReport)
    | BaseStation(station: BaseStationReport)
    | StaticVoyage(data: StaticVoyageData)

  function MessageMmsi(m: AisMessage): nat {
    match m
    case Position(r) => r.mmsi
    case BaseStation(s) => s.mmsi
    case StaticVoyage(d) => d.mmsi
  }

  // ---------------------------------------------------------------------
  // Field readers
  // ---------------------------------------------------------------------

  /** Unsigned field from bit lo to bit hi, both included. */
  function Field(p: seq<char>, lo: nat, hi: nat): (r: nat)
    requires lo <= hi < lo + 32 && hi < 6 * |p|
    ensures r < Pow2(hi - lo + 1)
  {
    GetBits(p, lo, hi, Inclusive)
  }

  /** Two's-complement field from bit lo to bit hi, both included. */
  function SignedField(p: seq<char>, lo: nat, hi: nat): (r: int)
    requires lo <= hi < lo + 32 && hi < 6 * |p|
    ensures -(Pow2(hi - lo) as int) <= r < Pow2(hi - lo)
  {
    GetBitsSigned(p, lo, hi, Inclusive)
  }

  /** Six-bit text as a decoder keeps it: written by get_char with its NUL, read back as a C string. */
  function ReadBack(t: seq<char>): (s: seq<char>)
    ensures |s| <= |t|
  {
    var buf := Blanked(t) + ['\0'];
    assert buf[|buf| - 1] == '\0';
    CString(buf)
  }

  /** A text field from bit lo to bit hi, both included, six bits per character. */
  function TextField(p: seq<char>, lo: nat, hi: nat): (t: seq<char>)
    requires lo <= hi + 1 && hi < 6 * |p|
    ensures |t| <= (hi + 1 - lo) / 6
  {
    ReadBack(SixBitText(p, lo, (hi + 1 - lo) / 6))
  }

  // ---------------------------------------------------------------------
  // Field ranges
  // ---------------------------------------------------------------------

  /** An unsigned value that fits in w bits. */
  predicate UFits(v: nat, w: nat) {
    v < Pow2(w)
  }

  /** A signed value that fits in w bits of two's complement. */
  predicate SFits(v: int, w: nat) {
    1 <= w && -(Pow2(w - 1) as int) <= v < Pow2(w - 1)
  }

  predicate PositionFits(m: PositionReport) {
    UFits(m.msgType, 6) && UFits(m.repeat, 2) && UFits(m.mmsi, 30) && UFits(m.navStatus, 4)
    && SFits(m.rateOfTurn, 8) && UFits(m.speedOverGround, 10) && UFits(m.accuracy, 1)
    && SFits(m.lon, 28) && SFits(m.lat, 27) && UFits(m.courseOverGround, 12)
    && UFits(m.heading, 9) && UFits(m.second, 6) && UFits(m.maneuver, 2)
    && UFits(m.raim, 1) && UFits(m.radioStatus, 19)
  }

  predicate BaseStationFits(m: BaseStationReport) {
    UFits(m.repeat, 2) && UFits(m.mmsi, 30) && UFits(m.year, 14) && UFits(m.month, 4)
    && UFits(m.day, 5) && UFits(m.hour, 5) && UFits(m.minute, 6) && UFits(m.second, 6)
    && UFits(m.accuracy, 1) && SFits(m.lon, 28) && SFits(m.lat, 27) && UFits(m.epfd, 4)
    && UFits(m.raim, 1) && UFits(m.radioStatus, 19)
  }

  predicate StaticVoyageFits(m: StaticVoyageData) {
    UFits(m.repeat, 2) && UFits(m.mmsi, 30) && UFits(m.aisVersion, 2) && UFits(m.imo, 30)
    && |m.callSign| <= 7 && |m.name| <= 20 && |m.destination| <= 20
    && UFits(m.shipType, 8) && UFits(m.toBow, 9) && UFits(m.toStern, 9)
    && UFits(m.toPort, 6) && UFits(m.toStarboard, 6) && UFits(m.epfd, 4)
    && UFits(m.etaMonth, 4) && UFits(m.etaDay, 5) && UFits(m.etaHour, 5) && UFits(m.etaMinute, 6)
    && UFits(m.draught, 8) && UFits(m.dte, 1)
  }

  // ---------------------------------------------------------------------
  // The decoders
  // ---------------------------------------------------------------------

  /** decode_position_report: messages 1, 2 and 3, ITU-R M.1371 Annex 8, section 3.1. */
  function DecodePositionReport(p: seq<char>, msgType: nat): (r: Option<PositionReport>)
    requires UFits(msgType, 6)
    ensures r.Some? <==> |p| == PositionReportLength && IsArmored(p)
    ensures r.Some? ==> PositionFits(r.value) && r.value.msgType == msgType
  {
    if |p| != PositionReportLength || !IsArmored(p) then None
    else Some(PositionFieldsOf(p, msgType))
  }

  /** The fields of a position report, read from a payload of the right length. */
  function PositionFieldsOf(p: seq<char>, msgType: nat): (m: PositionReport)
    requires UFits(msgType, 6) && |p| == PositionReportLength
    ensures PositionFits(m) && m.msgType == msgType
  {
    PositionReport(
      msgType,
      Field(p, 6, 7),              // repeat indicator
      Field(p, 8, 37),             // MMSI
      Field(p, 38, 41),            // navigational status
      SignedField(p, 42, 49),      // rate of turn
      Field(p, 50, 59),            // speed over ground, 1/10 knot
      Field(p, 60, 60),            // position accuracy
      SignedField(p, 61, 88),      // longitude, 1/10000 minute
      SignedField(p, 89, 115),     // latitude, 1/10000 minute
      Field(p, 116, 127),          // course over ground, 1/10 degree
      Field(p, 128, 136),          // true heading
      Field(p, 137, 142),          // UTC second
      Field(p, 143, 144),          // special manoeuvre indicator
      Field(p, 148, 148),          // RAIM flag (145-147 are spare)
      Field(p, 149, 167))          // communication state
  }

  /** decode_base_station_report: message 4, ITU-R M.1371 Annex 8, section 3.2. */
  function DecodeBaseStationReport(p: seq<char>): (r: Option<BaseStationReport>)
    ensures r.Some? <==> |p| == PositionReportLength && IsArmored(p)
    ensures r.Some? ==> BaseStationFits(r.value)
  {
    if |p| != PositionReportLength || !IsArmored(p) then None
    else Some(BaseStationFieldsOf(p))
  }

  /** The fields of a base station report, read from a payload of the right length. */
  function BaseStationFieldsOf(p: seq<char>): (m: BaseStationReport)
    requires |p| == PositionReportLength
    ensures BaseStationFits(m)
  {
    BaseStationReport(
      Field(p, 6, 7),              // repeat indicator
      Field(p, 8, 37),             // MMSI
      Field(p, 38, 51),            // UTC year
      Field(p, 52, 55),            // UTC month
      Field(p, 56, 60),            // UTC day
      Field(p, 61, 65),            // UTC hour
      Field(p, 66, 71),            // UTC minute
      Field(p, 72, 77),            // UTC second
      Field(p, 78, 78),            // position accuracy
      SignedField(p, 79, 106),     // longitude
      SignedField(p, 107, 133),    // latitude
      Field(p, 134, 137),          // type of position fixing device
      Field(p, 148, 148),          // RAIM flag (138-147 are spare)
      Field(p, 149, 167))          // communication state
  }

  /** decode_static_and_voyage_data: message 5, ITU-R M.1371 Annex 8, section 3.3. */
  function DecodeStaticVoyageData(p: seq<char>): (r: Option<StaticVoyageData>)
    ensures r.Some? <==> |p| == StaticVoyageLength && IsArmored(p)
    ensures r.Some? ==> StaticVoyageFits(r.value)
  {
    if |p| != StaticVoyageLength || !IsArmored(p) then None
    else Some(StaticVoyageFieldsOf(p))
  }

  /** The fields of a static and voyage data message, read from a payload of the right length. */
  function StaticVoyageFieldsOf(p: seq<char>): (m: StaticVoyageData)
    requires |p| == StaticVoyageLength
    ensures StaticVoyageFits(m)
  {
    StaticVoyageData(
      Field(p, 6, 7),              // repeat indicator
      Field(p, 8, 37),             // MMSI
      Field(p, 38, 39),            // AIS version
      Field(p, 40, 69),            // IMO number
      TextField(p, 70, 111),       // call sign, 7 characters
      TextField(p, 112, 231),      // name, 20 characters
      Field(p, 232, 239),          // type of ship and cargo
      Field(p, 240, 248),          // dimension to bow
      Field(p, 249, 257),          // dimension to stern
      Field(p, 258, 263),          // dimension to port
      Field(p, 264, 269),          // dimension to starboard
      Field(p, 270, 273),          // type of position fixing device
      Field(p, 274, 277),          // ETA month
      Field(p, 278, 282),          // ETA day
      Field(p, 283, 287),          // ETA hour
      Field(p, 288, 293),          // ETA minute
      Field(p, 294, 301),          // draught, 1/10 m
      TextField(p, 302, 421),      // destination, 20 characters
      Field(p, 422, 422))          // DTE (423 is spare)
  }

  /** The message type: payload_char_decode of the first character (the terminating NUL of an empty payload). */
  function MessageType(p: seq<char>): (t: nat)
    ensures IsArmored(p) && |p| > 0 ==> t == Field(p, 0, 5)
  {
    if |p| > 0 then (CharField(p, 0); PayloadCharDecode(p[0])) else PayloadCharDecode('\0')
  }

  /** The kind of message that a message type decodes to: 1 to 3, 4 or 5. */
  predicate DecodedAs(t: nat, m: AisMessage) {
    match m
    case Position(r) => 1 <= t <= 3 && r.msgType == t
    case BaseStation(_) => t == 4
    case StaticVoyage(_) => t == 5
  }

  /** payload_decode: dispatch on the message type; other types are not decoded. */
  function PayloadDecode(p: seq<char>): (r: Option<AisMessage>)
    ensures r.Some? ==> IsArmored(p) && DecodedAs(MessageType(p), r.value)
  {
    var t := MessageType(p);
    if 1 <= t <= 3 then
      match DecodePositionReport(p, t)
      case Some(m) => Some(Position(m))
      case None => None
    else if t == 4 then
      match DecodeBaseStationReport(p)
      case Some(m) => Some(BaseStation(m))
      case None => None
    else if t == 5 then
      match DecodeStaticVoyageData(p)
      case Some(m) => Some(StaticVoyage(m))
      case None => None
    else None
  }

  /** Payloads of the wrong length, or with a character outside the armoring, are never decoded. */
  lemma PayloadDecodeRejects(p: seq<char>)
    requires !IsArmored(p) || (|p| != PositionReportLength && |p| != StaticVoyageLength)
    ensures PayloadDecode(p) == None
  {
  }

  // ---------------------------------------------------------------------
  // Encoding: the partner of the decoders
  // ---------------------------------------------------------------------

  /** The w-bit two's complement of v. */
  function TwosComplement(v: int, w: nat): (u: nat)
    requires SFits(v, w)
    ensures u < Pow2(w)
  {
    if v < 0 then v + Pow2(w) else v
  }

  /** A field read back as its two's complement reads back signed as the value itself. */
  lemma SignedFieldOf(p: seq<char>, lo: nat, hi: nat, v: int)
    requires lo <= hi < lo + 32 && hi < 6 * |p|
    requires SFits(v, hi - lo + 1) && Field(p, lo, hi) == TwosComplement(v, hi - lo + 1)
    ensures SignedField(p, lo, hi) == v
  {
  }

  /** Bits written for v from bit lo of a bit stream read back, once armored, as v. */
  lemma BitsRead(b: seq<Bit>, lo: nat, v: nat, w: nat)
    requires |b| % 6 == 0 && lo + w <= |b| && v < Pow2(w)
    requires forall j :: 0 <= j < w ==> b[lo + j] == NatToBits(v, w)[j]
    ensures FieldValue(ArmorBits(b), lo, w) == v
  {
    assert b[lo..lo + w] == NatToBits(v, w);
    ArmoredValue(b, lo, v, w);
  }

  // Message 1, 2 or 3

  /** Width of field k of a position report; field 13 is the 3 spare bits. */
  function PositionWidth(k: int): (w: nat)
    ensures 1 <= w <= 32
  {
    match k
    case 0 => 6   case 1 => 2   case 2 => 30  case 3 => 4   case 4 => 8   case 5 => 10
    case 6 => 1   case 7 => 28  case 8 => 27  case 9 => 12  case 10 => 9  case 11 => 6
    case 12 => 2  case 13 => 3  case 14 => 1  case _ => 19
  }

  /** First bit of field k of a position report in ITU-R M.1371 Annex 8, section 3.1; 16 is the end. */
  function PositionStart(k: int): (lo: nat)
    ensures 0 <= k < 16 ==> lo + PositionWidth(k) <= 6 * PositionReportLength
  {
    match k
    case 0 => 0     case 1 => 6     case 2 => 8     case 3 => 38    case 4 => 42    case 5 => 50
    case 6 => 60    case 7 => 61    case 8 => 89    case 9 => 116   case 10 => 128  case 11 => 137
    case 12 => 143  case 13 => 145  case 14 => 148  case 15 => 149  case _ => 168
  }

  /** The rate of turn, the longitude and the latitude are two's complement fields. */
  predicate PositionSigned(k: int) {
    k == 4 || k == 7 || k == 8
  }

  /** The value of field k of a position report; the spare field is zero. */
  function PositionValue(m: PositionReport, k: int): int {
    match k
    case 0 => m.msgType           case 1 => m.repeat         case 2 => m.mmsi
    case 3 => m.navStatus         case 4 => m.rateOfTurn     case 5 => m.speedOverGround
    case 6 => m.accuracy          case 7 => m.lon            case 8 => m.lat
    case 9 => m.courseOverGround  case 10 => m.heading       case 11 => m.second
    case 12 => m.maneuver         case 13 => 0               case 14 => m.raim
    case _ => m.radioStatus
  }

  lemma PositionValueFits(m: PositionReport, k: int)
    requires PositionFits(m) && 0 <= k < 16
    ensures PositionSigned(k) ==> SFits(PositionValue(m, k), PositionWidth(k))
    ensures !PositionSigned(k) ==> 0 <= PositionValue(m, k) < Pow2(PositionWidth(k))
  {
  }

  /** The field that bit i of a position report belongs to. */
  function PositionFieldAt(i: int): (k: int)
    ensures 0 <= i < 6 * PositionReportLength ==>
      0 <= k < 16 && PositionStart(k) <= i < PositionStart(k) + PositionWidth(k)
  {
    if i < 6 then 0 else if i < 8 then 1 else if i < 38 then 2 else if i < 42 then 3
    else if i < 50 then 4 else if i < 60 then 5 else if i < 61 then 6 else if i < 89 then 7
    else if i < 116 then 8 else if i < 128 then 9 else if i < 137 then 10 else if i < 143 then 11
    else if i < 145 then 12 else if i < 148 then 13 else if i < 149 then 14 else 15
  }

  /** Every bit of field k belongs to field k: the fields do not overlap. */
  lemma PositionFieldAtIn(k: int, i: int)
    requires 0 <= k < 16 && PositionStart(k) <= i < PositionStart(k) + PositionWidth(k)
    ensures PositionFieldAt(i) == k
  {
  }

  /** The bits stored for field k: the value itself, or its two's complement for a signed field. */
  function PositionCode(m: PositionReport, k: int): (c: nat)
    requires PositionFits(m) && 0 <= k < 16
    ensures c < Pow2(PositionWidth(k))
  {
    PositionValueFits(m, k);
    if PositionSigned(k) then TwosComplement(PositionValue(m, k), PositionWidth(k))
    else PositionValue(m, k)
  }

  /** Bit i of the encoding: the matching bit of the field it belongs to, most significant first. */
  function PositionBit(m: PositionReport, i: int): Bit
    requires PositionFits(m) && 0 <= i < 6 * PositionReportLength
  {
    var k := PositionFieldAt(i);
    NatToBits(PositionCode(m, k), PositionWidth(k))[i - PositionStart(k)]
  }

  /** The 168 bits of a position report, fields in the order of ITU-R M.1371 Annex 8, section 3.1, spare bits zero. */
  function EncodePositionReport(m: PositionReport): (b: seq<Bit>)
    requires PositionFits(m)
    ensures |b| == 6 * PositionReportLength
  {
    seq(6 * PositionReportLength, i requires 0 <= i < 6 * PositionReportLength => PositionBit(m, i))
  }

  /** The armored payload of a position report. */
  function PositionPayload(m: PositionReport): (p: seq<char>)
    requires PositionFits(m)
    ensures |p| == PositionReportLength && IsArmored(p)
  {
    ArmorBits(EncodePositionReport(m))
  }

  /** Field k of the payload holds the bits stored for it. */
  lemma PositionCodeReads(m: PositionReport, k: int)
    requires PositionFits(m) && 0 <= k < 16
    ensures FieldValue(PositionPayload(m), PositionStart(k), PositionWidth(k)) == PositionCode(m, k)
  {
    var b := EncodePositionReport(m);
    var lo, w, c := PositionStart(k), PositionWidth(k), PositionCode(m, k);
    forall j | 0 <= j < w
      ensures b[lo + j] == NatToBits(c, w)[j]
    {
      PositionFieldAtIn(k, lo + j);
    }
    BitsRead(b, lo, c, w);
  }

  /** Unsigned field k of the encoding, bits lo to hi, reads back from the payload through get_bits as its value. */
  lemma PositionUnsignedReads(m: PositionReport, k: int, lo: nat, hi: nat)
    requires PositionFits(m) && 0 <= k < 16 && !PositionSigned(k)
    requires lo == PositionStart(k) && hi == lo + PositionWidth(k) - 1
    ensures Field(PositionPayload(m), lo, hi) == PositionValue(m, k)
  {
    PositionCodeReads(m, k);
  }

  /** Signed field k of the encoding, bits lo to hi, reads back from the payload through get_bits_signed as its value. */
  lemma PositionSignedReads(m: PositionReport, k: int, lo: nat, hi: nat)
    requires PositionFits(m) && 0 <= k < 16 && PositionSigned(k)
    requires lo == PositionStart(k) && hi == lo + PositionWidth(k) - 1
    ensures SignedField(PositionPayload(m), lo, hi) == PositionValue(m, k)
  {
    PositionCodeReads(m, k);
    PositionValueFits(m, k);
    SignedFieldOf(PositionPayload(m), lo, hi, PositionValue(m, k));
  }

  /** The identification, status, rate of turn, speed and accuracy fields read back from the encoding. */
  lemma PositionStatusReads(m: PositionReport)
    requires PositionFits(m)
    ensures var p := PositionPayload(m);
      Field(p, 6, 7) == m.repeat && Field(p, 8, 37) == m.mmsi && Field(p, 38, 41) == m.navStatus
      && SignedField(p, 42, 49) == m.rateOfTurn && Field(p, 50, 59) == m.speedOverGround
      && Field(p, 60, 60) == m.accuracy
  {
    PositionUnsignedReads(m, 1, 6, 7);
    PositionUnsignedReads(m, 2, 8, 37);
    PositionUnsignedReads(m, 3, 38, 41);
    PositionSignedReads(m, 4, 42, 49);
    PositionUnsignedReads(m, 5, 50, 59);
    PositionUnsignedReads(m, 6, 60, 60);
  }

  /** The position, course and heading fields read back from the encoding. */
  lemma PositionPlaceReads(m: PositionReport)
    requires PositionFits(m)
    ensures var p := PositionPayload(m);
      SignedField(p, 61, 88) == m.lon && SignedField(p, 89, 115) == m.lat
      && Field(p, 116, 127) == m.courseOverGround && Field(p, 128, 136) == m.heading
  {
    PositionSignedReads(m, 7, 61, 88);
    PositionSignedReads(m, 8, 89, 115);
    PositionUnsignedReads(m, 9, 116, 127);
    PositionUnsignedReads(m, 10, 128, 136);
  }

  /** The time stamp, manoeuvre, RAIM and communication state fields read back from the encoding. */
  lemma PositionTrailerReads(m: PositionReport)
    requires PositionFits(m)
    ensures var p := PositionPayload(m);
      Field(p, 137, 142) == m.second && Field(p, 143, 144) == m.maneuver
      && Field(p, 148, 148) == m.raim && Field(p, 149, 167) == m.radioStatus
  {
    PositionUnsignedReads(m, 11, 137, 142);
    PositionUnsignedReads(m, 12, 143, 144);
    PositionUnsignedReads(m, 14, 148, 148);
    PositionUnsignedReads(m, 15, 149, 167);
  }

  /** Decoding the armored encoding of a position report gives the report back. */
  lemma PositionRoundTrip(m: PositionReport)
    requires PositionFits(m)
    ensures DecodePositionReport(PositionPayload(m), m.msgType) == Some(m)
  {
    PositionStatusReads(m);
    PositionPlaceReads(m);
    PositionTrailerReads(m);
  }

  // Message 4

  /** Width of field k of a base station report; field 13 is the 10 spare bits. */
  function BaseStationWidth(k: int): (w: nat)
    ensures 1 <= w <= 32
  {
    match k
    case 0 => 6   case 1 => 2   case 2 => 30  case 3 => 14  case 4 => 4   case 5 => 5
    case 6 => 5   case 7 => 6   case 8 => 6   case 9 => 1   case 10 => 28 case 11 => 27
    case 12 => 4  case 13 => 10 case 14 => 1  case _ => 19
  }

  /** First bit of field k of a base station report in ITU-R M.1371 Annex 8, section 3.2; 16 is the end. */
  function BaseStationStart(k: int): (lo: nat)
    ensures 0 <= k < 16 ==> lo + BaseStationWidth(k) <= 6 * PositionReportLength
  {
    match k
    case 0 => 0     case 1 => 6     case 2 => 8     case 3 => 38    case 4 => 52    case 5 => 56
    case 6 => 61    case 7 => 66    case 8 => 72    case 9 => 78    case 10 => 79   case 11 => 107
    case 12 => 134  case 13 => 138  case 14 => 148  case 15 => 149  case _ => 168
  }

  /** The longitude and the latitude are two's complement fields. */
  predicate BaseStationSigned(k: int) {
    k == 10 || k == 11
  }

  /** The value of field k of a base station report: the message type is 4, the spare field zero. */
  function BaseStationValue(m: BaseStationReport, k: int): int {
    match k
    case 0 => 4           case 1 => m.repeat     case 2 => m.mmsi      case 3 => m.year
    case 4 => m.month     case 5 => m.day        case 6 => m.hour      case 7 => m.minute
    case 8 => m.second    case 9 => m.accuracy   case 10 => m.lon      case 11 => m.lat
    case 12 => m.epfd     case 13 => 0           case 14 => m.raim     case _ => m.radioStatus
  }

  lemma BaseStationValueFits(m: BaseStationReport, k: int)
    requires BaseStationFits(m) && 0 <= k < 16
    ensures BaseStationSigned(k) ==> SFits(BaseStationValue(m, k), BaseStationWidth(k))
    ensures !BaseStationSigned(k) ==> 0 <= BaseStationValue(m, k) < Pow2(BaseStationWidth(k))
  {
  }

  /** The field that bit i of a base station report belongs to. */
  function BaseStationFieldAt(i: int): (k: int)
    ensures 0 <= i < 6 * PositionReportLength ==>
      0 <= k < 16 && BaseStationStart(k) <= i < BaseStationStart(k) + BaseStationWidth(k)
  {
    if i < 6 then 0 else if i < 8 then 1 else if i < 38 then 2 else if i < 52 then 3
    else if i < 56 then 4 else if i < 61 then 5 else if i < 66 then 6 else if i < 72 then 7
    else if i < 78 then 8 else if i < 79 then 9 else if i < 107 then 10 else if i < 134 then 11
    else if i < 138 then 12 else if i < 148 then 13 else if i < 149 then 14 else 15
  }

  /** Every bit of field k belongs to field k: the fields do not overlap. */
  lemma BaseStationFieldAtIn(k: int, i: int)
    requires 0 <= k < 16 && BaseStationStart(k) <= i < BaseStationStart(k) + BaseStationWidth(k)
    ensures BaseStationFieldAt(i) == k
  {
  }

  /** The bits stored for field k: the value itself, or its two's complement for a signed field. */
  function BaseStationCode(m: BaseStationReport, k: int): (c: nat)
    requires BaseStationFits(m) && 0 <= k < 16
    ensures c < Pow2(BaseStationWidth(k))
  {
    BaseStationValueFits(m, k);
    if BaseStationSigned(k) then TwosComplement(BaseStationValue(m, k), BaseStationWidth(k))
    else BaseStationValue(m, k)
  }

  /** Bit i of the encoding: the matching bit of the field it belongs to, most significant first. */
  function BaseStationBit(m: BaseStationReport, i: int): Bit
    requires BaseStationFits(m) && 0 <= i < 6 * PositionReportLength
  {
    var k := BaseStationFieldAt(i);
    NatToBits(BaseStationCode(m, k), BaseStationWidth(k))[i - BaseStationStart(k)]
  }

  /** The 168 bits of a base station report, fields in the order of ITU-R M.1371 Annex 8, section 3.2, spare bits zero. */
  function EncodeBaseStationReport(m: BaseStationReport): (b: seq<Bit>)
    requires BaseStationFits(m)
    ensures |b| == 6 * PositionReportLength
  {
    seq(6 * PositionReportLength, i requires 0 <= i < 6 * PositionReportLength => BaseStationBit(m, i))
  }

  /** The armored payload of a base station report. */
  function BaseStationPayload(m: BaseStationReport): (p: seq<char>)
    requires BaseStationFits(m)
    ensures |p| == PositionReportLength && IsArmored(p)
  {
    ArmorBits(EncodeBaseStationReport(m))
  }

  /** Field k of the payload holds the bits stored for it. */
  lemma BaseStationCodeReads(m: BaseStationReport, k: int)
    requires BaseStationFits(m) && 0 <= k < 16
    ensures FieldValue(BaseStationPayload(m), BaseStationStart(k), BaseStationWidth(k)) == BaseStationCode(m, k)
  {
    var b := EncodeBaseStationReport(m);
    var lo, w, c := BaseStationStart(k), BaseStationWidth(k), BaseStationCode(m, k);
    forall j | 0 <= j < w
      ensures b[lo + j] == NatToBits(c, w)[j]
    {
      BaseStationFieldAtIn(k, lo + j);
    }
    BitsRead(b, lo, c, w);
  }

  /** Unsigned field k of the encoding, bits lo to hi, reads back from the payload through get_bits as its value. */
  lemma BaseStationUnsignedReads(m: BaseStationReport, k: int, lo: nat, hi: nat)
    requires BaseStationFits(m) && 0 <= k < 16 && !BaseStationSigned(k)
    requires lo == BaseStationStart(k) && hi == lo + BaseStationWidth(k) - 1
    ensures Field(BaseStationPayload(m), lo, hi) == BaseStationValue(m, k)
  {
    BaseStationCodeReads(m, k);
  }

  /** Signed field k of the encoding, bits lo to hi, reads back from the payload through get_bits_signed as its value. */
  lemma BaseStationSignedReads(m: BaseStationReport, k: int, lo: nat, hi: nat)
    requires BaseStationFits(m) && 0 <= k < 16 && BaseStationSigned(k)
    requires lo == BaseStationStart(k) && hi == lo + BaseStationWidth(k) - 1
    ensures SignedField(BaseStationPayload(m), lo, hi) == BaseStationValue(m, k)
  {
    BaseStationCodeReads(m, k);
    BaseStationValueFits(m, k);
    SignedFieldOf(BaseStationPayload(m), lo, hi, BaseStationValue(m, k));
  }

  /** The identification and UTC date fields read back from the encoding. */
  lemma BaseStationDateReads(m: BaseStationReport)
    requires BaseStationFits(m)
    ensures var p := BaseStationPayload(m);
      Field(p, 6, 7) == m.repeat && Field(p, 8, 37) == m.mmsi && Field(p, 38, 51) == m.year
      && Field(p, 52, 55) == m.month && Field(p, 56, 60) == m.day
  {
    BaseStationUnsignedReads(m, 1, 6, 7);
    BaseStationUnsignedReads(m, 2, 8, 37);
    BaseStationUnsignedReads(m, 3, 38, 51);
    BaseStationUnsignedReads(m, 4, 52, 55);
    BaseStationUnsignedReads(m, 5, 56, 60);
  }

  /** The UTC time and the position accuracy fields read back from the encoding. */
  lemma BaseStationClockReads(m: BaseStationReport)
    requires BaseStationFits(m)
    ensures var p := BaseStationPayload(m);
      Field(p, 61, 65) == m.hour && Field(p, 66, 71) == m.minute && Field(p, 72, 77) == m.second
      && Field(p, 78, 78) == m.accuracy
  {
    BaseStationUnsignedReads(m, 6, 61, 65);
    BaseStationUnsignedReads(m, 7, 66, 71);
    BaseStationUnsignedReads(m, 8, 72, 77);
    BaseStationUnsignedReads(m, 9, 78, 78);
  }

  /** The position fields read back from the encoding. */
  lemma BaseStationPlaceReads(m: BaseStationReport)
    requires BaseStationFits(m)
    ensures var p := BaseStationPayload(m);
      SignedField(p, 79, 106) == m.lon && SignedField(p, 107, 133) == m.lat
  {
    BaseStationSignedReads(m, 10, 79, 106);
    BaseStationSignedReads(m, 11, 107, 133);
  }

  /** The fixing device, RAIM and communication state fields read back from the encoding. */
  lemma BaseStationTrailerReads(m: BaseStationReport)
    requires BaseStationFits(m)
    ensures var p := BaseStationPayload(m);
      Field(p, 134, 137) == m.epfd && Field(p, 148, 148) == m.raim && Field(p, 149, 167) == m.radioStatus
  {
    BaseStationUnsignedReads(m, 12, 134, 137);
    BaseStationUnsignedReads(m, 14, 148, 148);
    BaseStationUnsignedReads(m, 15, 149, 167);
  }

  /** Decoding the armored encoding of a base station report gives the report back. */
  lemma BaseStationRoundTrip(m: BaseStationReport)
    requires BaseStationFits(m)
    ensures DecodeBaseStationReport(BaseStationPayload(m)) == Some(m)
  {
    BaseStationDateReads(m);
    BaseStationClockReads(m);
    BaseStationPlaceReads(m);
    BaseStationTrailerReads(m);
  }

  // Six-bit text

  /** A character a text field carries unchanged: the six-bit alphabet without '@'. */
  predicate IsTextChar(c: char) {
    ' ' <= c <= '_' && c != '@'
  }

  /** Text that a field of n characters carries unchanged: no '@' and no trailing space. */
  predicate IsFieldText(s: seq<char>, n: nat) {
    |s| <= n && (forall i :: 0 <= i < |s| ==> IsTextChar(s[i])) && (|s| > 0 ==> s[|s| - 1] != ' ')
  }

  /** The six-bit code of a character of the text alphabet. */
  function SixBitCode(c: char): (v: nat)
    requires ' ' <= c <= '_'
    ensures v < 64 && SixBitAscii(v) == c
  {
    c as int % 64
  }

  function Spaces(n: nat): (s: seq<char>)
    ensures |s| == n && forall i :: 0 <= i < n ==> s[i] == ' '
  {
    seq(n, _ => ' ')
  }

  /** Bits written for v at bit lo of an armored bit string read back as v. */
  lemma ArmoredValue(b: seq<Bit>, lo: nat, v: nat, w: nat)
    requires |b| % 6 == 0 && lo + w <= |b| && b[lo..lo + w] == NatToBits(v, w) && v < Pow2(w)
    ensures FieldValue(ArmorBits(b), lo, w) == v
  {
    ArmoredField(b, lo, w);
    NatToBitsRoundTrip(v, w);
  }

  /** Trailing spaces after text that does not end in a space are all that trimming removes. */
  lemma {:induction false} TrimPadded(s: seq<char>, m: nat)
    requires |s| > 0 ==> s[|s| - 1] != ' '
    ensures TrimTrailingSpaces(s + Spaces(m)) == s
  {
    if m == 0 {
      assert s + Spaces(0) == s;
    } else {
      TrimPadded(s, m - 1);
      assert (s + Spaces(m))[..|s| + m - 1] == s + Spaces(m - 1);
    }
  }

  /** Characters whose six-bit codes are stored from bit lo are what the text of those bits reads. */
  lemma SixBitTextOf(p: seq<char>, lo: nat, chars: seq<char>)
    requires lo + 6 * |chars| <= 6 * |p|
    requires forall k :: 0 <= k < |chars| ==> ' ' <= chars[k] <= '_'
    requires forall k :: 0 <= k < |chars| ==> FieldValue(p, lo + 6 * k, 6) == SixBitCode(chars[k])
    ensures SixBitText(p, lo, |chars|) == chars
  {
    forall k | 0 <= k < |chars|
      ensures TextChar(p, lo, k) == chars[k]
    {
      assert FieldWidth(lo + 6 * k, lo + 6 * k + 5, Inclusive) == 6;
    }
  }

  /** A text padded with spaces reads back, through get_char and its NUL, as the text. */
  lemma PaddedTextTrimmed(s: seq<char>, n: nat)
    requires IsFieldText(s, n)
    ensures ReadBack(s + Spaces(n - |s|)) == s
  {
    var padded := s + Spaces(n - |s|);
    assert forall i :: 0 <= i < |padded| ==> padded[i] != '@' && padded[i] != '\0';
    TextFieldTrimmed(padded);
    TrimPadded(s, n - |s|);
  }

  /** A field whose characters are the text and its padding reads back as the text. */
  lemma TextFieldOfChars(p: seq<char>, lo: nat, s: seq<char>, n: nat)
    requires 0 < n && IsFieldText(s, n) && lo + 6 * n <= 6 * |p|
    requires SixBitText(p, lo, n) == s + Spaces(n - |s|)
    ensures TextField(p, lo, lo + 6 * n - 1) == s
  {
    var hi := lo + 6 * n - 1;
    assert (hi + 1 - lo) / 6 == n;
    PaddedTextTrimmed(s, n);
  }

  /** The n characters a text field stores: the text, then spaces. */
  function Padded(s: seq<char>, n: nat): (t: seq<char>)
    requires IsFieldText(s, n)
    ensures |t| == n && forall i :: 0 <= i < n ==> ' ' <= t[i] <= '_'
  {
    s + Spaces(n - |s|)
  }

  /** Bit j of a text field of n characters: bit j % 6 of the six-bit code of character j / 6. */
  function TextBit(s: seq<char>, n: nat, j: int): Bit
    requires IsFieldText(s, n) && 0 <= j < 6 * n
  {
    NatToBits(SixBitCode(Padded(s, n)[j / 6]), 6)[j % 6]
  }

  /** Character k of a text field sits at bits 6k to 6k+5 of the field. */
  lemma TextBitOf(k: nat, t: nat)
    requires t < 6
    ensures (6 * k + t) / 6 == k && (6 * k + t) % 6 == t
  {
  }

  /** A text field written bit by bit from bit lo reads back, through get_char and its NUL, as the text. */
  lemma TextRead(b: seq<Bit>, lo: nat, s: seq<char>, n: nat)
    requires 0 < n && IsFieldText(s, n) && |b| % 6 == 0 && lo + 6 * n <= |b|
    requires forall j :: 0 <= j < 6 * n ==> b[lo + j] == TextBit(s, n, j)
    ensures TextField(ArmorBits(b), lo, lo + 6 * n - 1) == s
  {
    var p, padded := ArmorBits(b), Padded(s, n);
    forall k | 0 <= k < n
      ensures FieldValue(p, lo + 6 * k, 6) == SixBitCode(padded[k])
    {
      var v := SixBitCode(padded[k]);
      forall t | 0 <= t < 6
        ensures b[lo + 6 * k + t] == NatToBits(v, 6)[t]
      {
        TextBitOf(k, t);
        assert b[lo + (6 * k + t)] == TextBit(s, n, 6 * k + t);
      }
      BitsRead(b, lo + 6 * k, v, 6);
    }
    SixBitTextOf(p, lo, padded);
    TextFieldOfChars(p, lo, s, n);
  }

  // Message 5

  /** Width of field k of a static and voyage data message; the spare bit and the 2 fill bits come last. */
  function StaticVoyageWidth(k: int): (w: nat)
    ensures 1 <= w && (!StaticVoyageIsText(k) ==> w <= 32)
    ensures StaticVoyageIsText(k) ==> w == 6 * StaticVoyageTextLength(k)
  {
    match k
    case 0 => 6    case 1 => 2    case 2 => 30   case 3 => 2    case 4 => 30   case 5 => 42
    case 6 => 120  case 7 => 8    case 8 => 9    case 9 => 9    case 10 => 6   case 11 => 6
    case 12 => 4   case 13 => 4   case 14 => 5   case 15 => 5   case 16 => 6   case 17 => 8
    case 18 => 120 case 19 => 1   case 20 => 1   case _ => 2
  }

  /** First bit of field k of a static and voyage data message in ITU-R M.1371 Annex 8, section 3.3; 22 is the end. */
  function StaticVoyageStart(k: int): (lo: nat)
    ensures 0 <= k < 22 ==> lo + StaticVoyageWidth(k) <= 6 * StaticVoyageLength
  {
    match k
    case 0 => 0     case 1 => 6     case 2 => 8     case 3 => 38    case 4 => 40    case 5 => 70
    case 6 => 112   case 7 => 232   case 8 => 240   case 9 => 249   case 10 => 258  case 11 => 264
    case 12 => 270  case 13 => 274  case 14 => 278  case 15 => 283  case 16 => 288  case 17 => 294
    case 18 => 302  case 19 => 422  case 20 => 423  case 21 => 424  case _ => 426
  }

  /** The call sign, the name and the destination are six-bit text fields. */
  predicate StaticVoyageIsText(k: int) {
    k == 5 || k == 6 || k == 18
  }

  /** The number of characters of text field k: 7 for the call sign, 20 for the name and the destination. */
  function StaticVoyageTextLength(k: int): nat {
    if k == 5 then 7 else 20
  }

  /** A static and voyage data message whose text fields survive encoding. */
  predicate StaticVoyageEncodable(m: StaticVoyageData) {
    StaticVoyageFits(m) && IsFieldText(m.callSign, 7) && IsFieldText(m.name, 20)
    && IsFieldText(m.destination, 20)
  }

  /** The value of numeric field k: the message type is 5, the spare and fill bits are zero. */
  function StaticVoyageValue(m: StaticVoyageData, k: int): nat {
    match k
    case 0 => 5             case 1 => m.repeat       case 2 => m.mmsi          case 3 => m.aisVersion
    case 4 => m.imo         case 7 => m.shipType     case 8 => m.toBow         case 9 => m.toStern
    case 10 => m.toPort     case 11 => m.toStarboard case 12 => m.epfd         case 13 => m.etaMonth
    case 14 => m.etaDay     case 15 => m.etaHour     case 16 => m.etaMinute    case 17 => m.draught
    case 19 => m.dte        case _ => 0
  }

  lemma StaticVoyageValueFits(m: StaticVoyageData, k: int)
    requires StaticVoyageFits(m) && 0 <= k < 22
    ensures StaticVoyageValue(m, k) < Pow2(StaticVoyageWidth(k))
  {
  }

  /** The text of text field k. */
  function StaticVoyageText(m: StaticVoyageData, k: int): seq<char> {
    if k == 5 then m.callSign else if k == 6 then m.name else m.destination
  }

  /** The field that bit i of a static and voyage data message belongs to. */
  function StaticVoyageFieldAt(i: int): (k: int)
    ensures 0 <= i < 6 * StaticVoyageLength ==>
      0 <= k < 22 && StaticVoyageStart(k) <= i < StaticVoyageStart(k) + StaticVoyageWidth(k)
  {
    if i < 6 then 0 else if i < 8 then 1 else if i < 38 then 2 else if i < 40 then 3
    else if i < 70 then 4 else if i < 112 then 5 else if i < 232 then 6 else if i < 240 then 7
    else if i < 249 then 8 else if i < 258 then 9 else if i < 264 then 10 else if i < 270 then 11
    else if i < 274 then 12 else if i < 278 then 13 else if i < 283 then 14 else if i < 288 then 15
    else if i < 294 then 16 else if i < 302 then 17 else if i < 422 then 18 else if i < 423 then 19
    else if i < 424 then 20 else 21
  }

  /** Every bit of field k belongs to field k: the fields do not overlap. */
  lemma StaticVoyageFieldAtIn(k: int, i: int)
    requires 0 <= k < 22 && StaticVoyageStart(k) <= i < StaticVoyageStart(k) + StaticVoyageWidth(k)
    ensures StaticVoyageFieldAt(i) == k
  {
  }

  /** Bit i of the encoding: the matching bit of the field it belongs to, most significant first. */
  function StaticVoyageBit(m: StaticVoyageData, i: int): Bit
    requires StaticVoyageEncodable(m) && 0 <= i < 6 * StaticVoyageLength
  {
    var k := StaticVoyageFieldAt(i);
    if StaticVoyageIsText(k) then TextBit(StaticVoyageText(m, k), StaticVoyageTextLength(k), i - StaticVoyageStart(k))
    else NatToBits(StaticVoyageValue(m, k), StaticVoyageWidth(k))[i - StaticVoyageStart(k)]
  }

  /** The 424 bits of a static and voyage data message, in the order of ITU-R M.1371 Annex 8, section 3.3, and 2 zero fill bits. */
  function EncodeStaticVoyageData(m: StaticVoyageData): (b: seq<Bit>)
    requires StaticVoyageEncodable(m)
    ensures |b| == 6 * StaticVoyageLength
  {
    seq(6 * StaticVoyageLength, i requires 0 <= i < 6 * StaticVoyageLength => StaticVoyageBit(m, i))
  }

  /** The armored payload of a static and voyage data message. */
  function StaticVoyagePayload(m: StaticVoyageData): (p: seq<char>)
    requires StaticVoyageEncodable(m)
    ensures |p| == StaticVoyageLength && IsArmored(p)
  {
    ArmorBits(EncodeStaticVoyageData(m))
  }

  /** Numeric field k of the encoding, bits lo to hi, reads back from the payload through get_bits as its value. */
  lemma StaticVoyageUnsignedReads(m: StaticVoyageData, k: int, lo: nat, hi: nat)
    requires StaticVoyageEncodable(m) && 0 <= k < 22 && !StaticVoyageIsText(k)
    requires lo == StaticVoyageStart(k) && hi == lo + StaticVoyageWidth(k) - 1
    ensures Field(StaticVoyagePayload(m), lo, hi) == StaticVoyageValue(m, k)
  {
    var b := EncodeStaticVoyageData(m);
    var w, v := StaticVoyageWidth(k), StaticVoyageValue(m, k);
    StaticVoyageValueFits(m, k);
    forall j | 0 <= j < w
      ensures b[lo + j] == NatToBits(v, w)[j]
    {
      StaticVoyageFieldAtIn(k, lo + j);
    }
    BitsRead(b, lo, v, w);
  }

  /** Text field k of the encoding, bits lo to hi, reads back from the payload through get_char as its text. */
  lemma StaticVoyageTextReads(m: StaticVoyageData, k: int, lo: nat, hi: nat)
    requires StaticVoyageEncodable(m) && StaticVoyageIsText(k)
    requires lo == StaticVoyageStart(k) && hi == lo + StaticVoyageWidth(k) - 1
    ensures TextField(StaticVoyagePayload(m), lo, hi) == StaticVoyageText(m, k)
  {
    var b := EncodeStaticVoyageData(m);
    var n, s := StaticVoyageTextLength(k), StaticVoyageText(m, k);
    forall j | 0 <= j < 6 * n
      ensures b[lo + j] == TextBit(s, n, j)
    {
      StaticVoyageFieldAtIn(k, lo + j);
    }
    TextRead(b, lo, s, n);
  }

  /** The identification fields and the two names read back from the encoding. */
  lemma StaticVoyageIdentityReads(m: StaticVoyageData)
    requires StaticVoyageEncodable(m)
    ensures var p := StaticVoyagePayload(m);
      Field(p, 6, 7) == m.repeat && Field(p, 8, 37) == m.mmsi && Field(p, 38, 39) == m.aisVersion
      && Field(p, 40, 69) == m.imo && TextField(p, 70, 111) == m.callSign
      && TextField(p, 112, 231) == m.name
  {
    StaticVoyageUnsignedReads(m, 1, 6, 7);
    StaticVoyageUnsignedReads(m, 2, 8, 37);
    StaticVoyageUnsignedReads(m, 3, 38, 39);
    StaticVoyageUnsignedReads(m, 4, 40, 69);
    StaticVoyageTextReads(m, 5, 70, 111);
    StaticVoyageTextReads(m, 6, 112, 231);
  }

  /** The ship type, the dimensions and the position fixing device read back from the encoding. */
  lemma StaticVoyageShipReads(m: StaticVoyageData)
    requires StaticVoyageEncodable(m)
    ensures var p := StaticVoyagePayload(m);
      Field(p, 232, 239) == m.shipType && Field(p, 240, 248) == m.toBow
      && Field(p, 249, 257) == m.toStern && Field(p, 258, 263) == m.toPort
      && Field(p, 264, 269) == m.toStarboard && Field(p, 270, 273) == m.epfd
  {
    StaticVoyageUnsignedReads(m, 7, 232, 239);
    StaticVoyageUnsignedReads(m, 8, 240, 248);
    StaticVoyageUnsignedReads(m, 9, 249, 257);
    StaticVoyageUnsignedReads(m, 10, 258, 263);
    StaticVoyageUnsignedReads(m, 11, 264, 269);
    StaticVoyageUnsignedReads(m, 12, 270, 273);
  }

  /** The ETA, the draught, the destination and the DTE flag read back from the encoding. */
  lemma StaticVoyageVoyageReads(m: StaticVoyageData)
    requires StaticVoyageEncodable(m)
    ensures var p := StaticVoyagePayload(m);
      Field(p, 274, 277) == m.etaMonth && Field(p, 278, 282) == m.etaDay
      && Field(p, 283, 287) == m.etaHour && Field(p, 288, 293) == m.etaMinute
      && Field(p, 294, 301) == m.draught && TextField(p, 302, 421) == m.destination
      && Field(p, 422, 422) == m.dte
  {
    StaticVoyageUnsignedReads(m, 13, 274, 277);
    StaticVoyageUnsignedReads(m, 14, 278, 282);
    StaticVoyageUnsignedReads(m, 15, 283, 287);
    StaticVoyageUnsignedReads(m, 16, 288, 293);
    StaticVoyageUnsignedReads(m, 17, 294, 301);
    StaticVoyageTextReads(m, 18, 302, 421);
    StaticVoyageUnsignedReads(m, 19, 422, 422);
  }

  /** Decoding the armored encoding of a static and voyage data message gives it back. */
  lemma StaticVoyageRoundTrip(m: StaticVoyageData)
    requires StaticVoyageEncodable(m)
    ensures DecodeStaticVoyageData(StaticVoyagePayload(m)) == Some(m)
  {
    StaticVoyageIdentityReads(m);
    StaticVoyageShipReads(m);
    StaticVoyageVoyageReads(m);
  }

  // Dispatch

  /** A message that payload_decode can receive: a position report must carry type 1, 2 or 3. */
  predicate MessageEncodable(msg: AisMessage) {
    match msg
    case Position(r) => PositionFits(r) && 1 <= r.msgType <= 3
    case BaseStation(s) => BaseStationFits(s)
    case StaticVoyage(d) => StaticVoyageEncodable(d)
  }

  /** The armored payload of a message. */
  function MessagePayload(msg: AisMessage): (p: seq<char>)
    requires MessageEncodable(msg)
    ensures IsArmored(p)
  {
    match msg
    case Position(r) => PositionPayload(r)
    case BaseStation(s) => BaseStationPayload(s)
    case StaticVoyage(d) => StaticVoyagePayload(d)
  }

  /** payload_decode dispatches an encoded position report, by its type 1, 2 or 3, back to the report. */
  lemma PositionDispatch(r: PositionReport)
    requires PositionFits(r) && 1 <= r.msgType <= 3
    ensures PayloadDecode(PositionPayload(r)) == Some(Position(r))
  {
    var p := PositionPayload(r);
    PositionUnsignedReads(r, 0, 0, 5);
    assert MessageType(p) == r.msgType;
    PositionRoundTrip(r);
  }

  /** payload_decode dispatches an encoded base station report, by its type 4, back to the report. */
  lemma BaseStationDispatch(s: BaseStationReport)
    requires BaseStationFits(s)
    ensures PayloadDecode(BaseStationPayload(s)) == Some(BaseStation(s))
  {
    var p := BaseStationPayload(s);
    BaseStationUnsignedReads(s, 0, 0, 5);
    assert MessageType(p) == 4;
    BaseStationRoundTrip(s);
  }

  /** payload_decode dispatches an encoded static and voyage data message, by its type 5, back to it. */
  lemma StaticVoyageDispatch(d: StaticVoyageData)
    requires StaticVoyageEncodable(d)
    ensures PayloadDecode(StaticVoyagePayload(d)) == Some(StaticVoyage(d))
  {
    var p := StaticVoyagePayload(d);
    StaticVoyageUnsignedReads(d, 0, 0, 5);
    assert MessageType(p) == 5;
    StaticVoyageRoundTrip(d);
  }

  /** payload_decode reads the type from the first six bits and decodes every encoded message back. */
  lemma PayloadDecodeRoundTrip(msg: AisMessage)
    requires MessageEncodable(msg)
    ensures PayloadDecode(MessagePayload(msg)) == Some(msg)
  {
    match msg
    case Position(r) => PositionDispatch(r);
    case BaseStation(s) => BaseStationDispatch(s);
    case StaticVoyage(d) => StaticVoyageDispatch(d);
  }
}
