/**
 * Fixed sizes, integer widths, the receiver configuration and the AIVDM
 * fragment record shared by every part of the AIS receive path.
 */
module AisTypes {

  /** Number of fragments the reassembly buffer holds (AIVDM_BUFFER_SIZE). */
  const AivdmBufferSize: nat := 10

  /** Size of a term or payload buffer, terminating NUL included (AIVDM_PAYLOAD_SIZE). */
  const AivdmPayloadSize: nat := 65

  type Int8 = x: int | -0x80 <= x < 0x80
  type Uint8 = x: int | 0 <= x < 0x100
  type Int16 = x: int | -0x8000 <= x < 0x8000
  type Uint16 = x: int | 0 <= x < 0x1_0000
  type Uint32 = x: int | 0 <= x < 0x1_0000_0000

  datatype Option<T> = None | Some(value: T)

  /** Armored text that fits, with its NUL, in a char[AIVDM_PAYLOAD_SIZE] buffer. */
  type PayloadText = s: seq<char> | |s| < AivdmPayloadSize

  /**
   * One received !AIVDM sentence: its fragment number, the fragment count of
   * the message it belongs to, the sequential message id and the payload.
   */
  datatype Aivdm = Aivdm(num: Uint8, total: Uint8, id: Uint8, payload: PayloadText)

  /** The all-zero record that marks a free slot of the fragment buffer. */
  const EmptyAivdm: Aivdm := Aivdm(0, 0, 0, [])

  predicate IsFree(f: Aivdm) {
    f.num == 0 && f.total == 0 && f.id == 0
  }

  /** The receiver kinds the type parameter can select; NONE is code 0, NMEA code 1. */
  datatype AisType = NoReceiver | NmeaReceiver | OtherReceiver(code: Int8)

  function ReceiverType(code: Int8): AisType {
    if code == 0 then NoReceiver
    else if code == 1 then NmeaReceiver
    else OtherReceiver(code)
  }

  /** enabled(): AIS is on exactly when the configured receiver is not NONE. */
  function Enabled(typeParam: Int8): (r: bool)
    ensures r <==> typeParam != 0
  {
    ReceiverType(typeParam) != NoReceiver
  }
}
