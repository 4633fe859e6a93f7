/** The messages of the SDO service and how the data they carry are read (ethercatcoe.c). */
module SdoMessages {
  import opened Memory

  const COE_TYPE := 3
  const SDO_REQUEST := 2
  const SDO_RESPONSE := 3
  const ABORT := 0x80

  /** A message: mailbox type and length, the CANopen word, the command byte, and all that follows the
      command byte: index, subindex and data, or the data of a segment. */
  datatype Msg = Msg(mbxtype: nat, length: nat, canopen: nat, command: nat, tail: seq<byte>)

  function Index(m: Msg): nat
    requires |m.tail| >= 7
  {
    (m.tail[0] as int) + 256 * (m.tail[1] as int)
  }

  function SubIndex(m: Msg): nat
    requires |m.tail| >= 7
  {
    m.tail[2]
  }

  /** The first 32-bit word of the data, the size of the object in a normal transfer. */
  function Word(m: Msg): nat
    requires |m.tail| >= 7
  {
    (m.tail[3] as int) + 256 * (m.tail[4] as int) + 65536 * (m.tail[5] as int) + 16777216 * (m.tail[6] as int)
  }

  /** A message at least as long as the shortest SDO message, with all its bytes there. */
  predicate WellFormed(m: Msg) {
    10 <= m.length < 65536 && m.length - 3 <= |m.tail| && m.command < 256
  }

  predicate Has(m: Msg, service: nat) { m.mbxtype % 16 == COE_TYPE && m.canopen / 4096 == service }

  predicate IsExpedited(m: Msg) { m.command / 2 % 2 == 1 }

  predicate IsLast(m: Msg) { m.command % 2 == 1 }

  function Toggle(m: Msg): nat { m.command / 16 % 2 }

  /** The size that starts a normal transfer is not negative as a signed 32-bit number. */
  predicate Sized(rs: seq<Msg>)
    requires AllWellFormed(rs)
  {
    rs != [] && !IsExpedited(rs[0]) ==> Word(rs[0]) < 0x8000_0000
  }

  function ExpeditedData(m: Msg): seq<byte>
    requires WellFormed(m)
  {
    m.tail[3..7 - m.command / 4 % 4]
  }

  /** The size of the data section of an initial message. */
  function InitSize(m: Msg): nat
    requires WellFormed(m)
  {
    m.length - 10
  }

  function InitData(m: Msg): seq<byte>
    requires WellFormed(m)
  {
    if InitSize(m) < Word(m) then m.tail[7..7 + InitSize(m)] else m.tail[7..7 + Word(m)]
  }

  /** A segment has at least 7 bytes; the last one says how many of 7 bytes are not used. */
  function SegmentSize(m: Msg): (n: nat)
    requires WellFormed(m)
    ensures n <= m.length - 3
  {
    if IsLast(m) && m.length - 3 == 7 then 7 - m.command / 2 % 8 else m.length - 3
  }

  function SegmentData(m: Msg): (d: seq<byte>)
    requires WellFormed(m)
    ensures |d| == SegmentSize(m)
  {
    m.tail[..SegmentSize(m)]
  }

  predicate IsSegment(m: Msg, service: nat) { Has(m, service) && m.command / 32 % 8 == 0 }

  /** How a transfer ends. Pending: more segments are asked for and none has come. */
  datatype Outcome = Done | TooSmall | Aborted | Unexpected | NoAnswer | Pending

  function Refusal(m: Msg): Outcome { if m.command == ABORT then Aborted else Unexpected }

  predicate AllWellFormed(rs: seq<Msg>) {
    forall k {:trigger rs[k]} :: 0 <= k < |rs| ==> WellFormed(rs[k])
  }

  /** The data of the segments from message `k` on. */
  function SegmentsFrom(rs: seq<Msg>, k: nat, service: nat): (Outcome, seq<byte>)
    requires k <= |rs| && AllWellFormed(rs)
    decreases |rs| - k
  {
    if k == |rs| then (Pending, [])
    else if !IsSegment(rs[k], service) then (Refusal(rs[k]), [])
    else if IsLast(rs[k]) then (Done, SegmentData(rs[k]))
    else
      var rest := SegmentsFrom(rs, k + 1, service);
      (rest.0, SegmentData(rs[k]) + rest.1)
  }

  /** The object that a sequence of messages transfers to a reader with room for `psize` bytes. */
  function Transferred(rs: seq<Msg>, index: nat, psize: int, service: nat): (Outcome, seq<byte>)
    requires AllWellFormed(rs)
  {
    if rs == [] then (NoAnswer, [])
    else if !Has(rs[0], service) || Index(rs[0]) != index then (Refusal(rs[0]), [])
    else if IsExpedited(rs[0]) then
      if |ExpeditedData(rs[0])| <= psize then (Done, ExpeditedData(rs[0])) else (TooSmall, [])
    else if Word(rs[0]) > psize then (TooSmall, [])
    else if InitSize(rs[0]) < Word(rs[0]) then
      var rest := SegmentsFrom(rs, 1, service);
      (rest.0, InitData(rs[0]) + rest.1)
    else (Done, InitData(rs[0]))
  }

  /** The first message is accepted and its object fits the buffer. */
  predicate Begins(rs: seq<Msg>, index: nat, psize: int, service: nat)
    requires AllWellFormed(rs)
  {
    && rs != [] && Has(rs[0], service) && Index(rs[0]) == index
    && (if IsExpedited(rs[0]) then |ExpeditedData(rs[0])| <= psize else Word(rs[0]) <= psize)
  }

  /** How many segments are asked for from message `k` on. */
  function AskedFor(rs: seq<Msg>, k: nat, service: nat): nat
    requires k <= |rs|
    decreases |rs| - k
  {
    if k == |rs| || !IsSegment(rs[k], service) || IsLast(rs[k]) then 1 else 1 + AskedFor(rs, k + 1, service)
  }

  function AllAskedFor(rs: seq<Msg>, index: nat, psize: int, service: nat): nat
    requires AllWellFormed(rs)
  {
    if Begins(rs, index, psize, service) && !IsExpedited(rs[0]) && InitSize(rs[0]) < Word(rs[0])
    then 1 + AskedFor(rs, 1, service) else 1
  }
}
