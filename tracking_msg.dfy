/**
 * Message and record types of the object tracking application, with its
 * two sizing constants: the width of the class table and the bound on the
 * length of one class's history.
 */
module TrackingMsg {

  newtype uint8 = x: int | 0 <= x < 0x100
  newtype uint16 = x: int | 0 <= x < 0x1_0000
  newtype uint32 = x: int | 0 <= x < 0x1_0000_0000

  /** Number of tracked classes; a class's `class_id` is its index in the table. */
  const MaxObjectTracking: nat := 10
  /** Largest number of observations kept in one class's history. */
  const MaxLinkedListLen: nat := 50

  /** A `char[10]` field: at most nine characters before the terminator. */
  type ShortName = s: seq<char> | |s| <= 9

  /** A `double` carried as its raw bit pattern; no arithmetic is done on it. */
  datatype Float64 = Float64(bits: bv64)

  /** OBJECT_Essentials_Data_t: one timestamped observation of a detected object. */
  datatype Essentials = Essentials(
    timeStampSec: uint32,
    timeStampNanoSec: uint32,
    classId: uint8,
    className: ShortName,
    confidenceScore: Float64,
    objectId: ShortName,
    distance: Float64,
    orientation: Float64)

  /** OBJECT_Switch_t: turn publishing on or off for one class. */
  datatype SwitchMsg = SwitchMsg(classId: uint8, switchCMD: bool)

  /** OBJECT_HkTlm_Payload_t: the counters as reported to housekeeping. */
  datatype HkTlmPayload = HkTlmPayload(commandErrorCounter: uint8, commandCounter: uint8)

  /** Strictly earlier: seconds first, nanoseconds break a tie. */
  predicate Earlier(a: Essentials, b: Essentials)
  {
    a.timeStampSec < b.timeStampSec ||
    (a.timeStampSec == b.timeStampSec && a.timeStampNanoSec < b.timeStampNanoSec)
  }

  /** `Earlier` is the strict lexicographic order on (seconds, nanoseconds). */
  lemma EarlierIsStrictOrder(a: Essentials, b: Essentials, c: Essentials)
    ensures !Earlier(a, a)
    ensures Earlier(a, b) ==> !Earlier(b, a)
    ensures Earlier(a, b) && Earlier(b, c) ==> Earlier(a, c)
    ensures !Earlier(a, b) && !Earlier(b, a) <==>
            a.timeStampSec == b.timeStampSec && a.timeStampNanoSec == b.timeStampNanoSec
  {
  }
}
