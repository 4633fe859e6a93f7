/** A slave that follows the protocol, and what the master gets from it. */
module SdoUpload {
  import opened Memory
  import opened SdoMessages
  import opened SdoWire

  /** Message `m` is a segment with `n` bytes of the object from position `o` on. */
  ghost predicate ServesSegment(m: Msg, value: seq<byte>, o: nat, n: nat) {
    exists toggle: nat, unused: nat :: ServesWith(m, value, o, n, toggle, unused)
  }

  ghost predicate ServesWith(m: Msg, value: seq<byte>, o: nat, n: nat, toggle: nat, unused: nat) {
    SegmentOf(m, 3, value, o, n, o + n == |value|, toggle, unused)
  }

  /** The segments from message `k` on, with the object cut in any way. */
  ghost predicate ServesSegments(rs: seq<Msg>, k: nat, value: seq<byte>, o: nat)
    requires k <= |rs|
    decreases |rs| - k
  {
    k < |rs| && exists n: nat :: ServesSegment(rs[k], value, o, n)
                            && (if o + n == |value| then k == |rs| - 1 else ServesSegments(rs, k + 1, value, o + n))
  }

  /** The messages with which a slave answers the requests for an object. */
  ghost predicate Serves(rs: seq<Msg>, index: nat, value: seq<byte>) {
    && rs != [] && AllWellFormed(rs) && Coe(rs[0], 3) && OfObject(rs[0], index)
    && (|| ExpeditedOf(rs[0], value)
        || InitOf(rs[0], value, |value|)
        || exists n: nat :: InitOf(rs[0], value, n) && n < |value| && ServesSegments(rs, 1, value, n))
  }

  lemma {:induction false} ServedIsRead(m: Msg, value: seq<byte>, o: nat, n: nat)
    requires ServesSegment(m, value, o, n)
    ensures WellFormed(m) && IsSegment(m, SDO_RESPONSE) && o + n <= |value|
    ensures SegmentData(m) == value[o..o + n] && (IsLast(m) <==> o + n == |value|)
  {
    hide WellFormed, IsSegment, IsLast, SegmentData;
    var toggle: nat, unused: nat :| ServesWith(m, value, o, n, toggle, unused);
    SegmentIsRead(m, 3, value, o, n, o + n == |value|, toggle, unused);
  }

  lemma {:induction false} SegmentsAreRead(rs: seq<Msg>, k: nat, value: seq<byte>, o: nat)
    requires k <= |rs| && o <= |value| && AllWellFormed(rs) && ServesSegments(rs, k, value, o)
    ensures SegmentsFrom(rs, k, SDO_RESPONSE) == (Done, value[o..])
    decreases |rs| - k
  {
    hide WellFormed, IsLast, SegmentData, IsSegment, ServesSegment;
    var n: nat :| ServesSegment(rs[k], value, o, n)
                  && (o + n == |value| || ServesSegments(rs, k + 1, value, o + n));
    ServedIsRead(rs[k], value, o, n);
    if IsLast(rs[k]) {
      assert value[o..o + n] == value[o..];
    } else {
      SegmentsAreRead(rs, k + 1, value, o + n);
      assert value[o..] == value[o..o + n] + value[o + n..];
    }
  }

  /** Whatever way a slave cuts an object, the master reads exactly this object, if and only if its
      buffer is large enough; otherwise it reports so and reads nothing. */
  lemma {:induction false} UploadIsExact(rs: seq<Msg>, index: nat, value: seq<byte>, psize: int)
    requires Serves(rs, index, value)
    ensures Transferred(rs, index, psize, SDO_RESPONSE) == if |value| <= psize then (Done, value) else (TooSmall, [])
  {
    hide WellFormed, Has, IsExpedited, Word, Index, ExpeditedData, SegmentsFrom, ServesSegments, InitData, ExpeditedOf,
         InitOf, InitSize;
    var m := rs[0];
    IndexIsRead(m, index);
    ResponseIsRead(m);
    if ExpeditedOf(m, value) {
      DataIsRead(m, value);
    } else if InitOf(m, value, |value|) {
      InitIsRead(m, value, |value|);
      assert value[..|value|] == value;
    } else {
      var n: nat :| InitOf(m, value, n) && n < |value| && ServesSegments(rs, 1, value, n);
      InitIsRead(m, value, n);
      SegmentsAreRead(rs, 1, value, n);
      assert value == value[..n] + value[n..];
    }
  }

  lemma {:induction false} ResponseIsRead(m: Msg)
    requires Coe(m, 3)
    ensures Has(m, SDO_RESPONSE)
  {
  }

  /** After segments of an object, message `end` says that the slave aborts the transfer. */
  ghost predicate BreaksOff(rs: seq<Msg>, k: nat, value: seq<byte>, o: nat, end: nat)
    requires k <= end < |rs|
    decreases end - k
  {
    if k == end then Aborts(Some(rs[k]))
    else
      exists n: nat ::
        ServesSegment(rs[k], value, o, n) && o + n < |value| && BreaksOff(rs, k + 1, value, o + n, end)
  }

  /** The master then reports the abort. */
  lemma {:induction false} AbortEndsUpload(rs: seq<Msg>, k: nat, value: seq<byte>, o: nat, end: nat)
    requires k <= end < |rs| && AllWellFormed(rs) && BreaksOff(rs, k, value, o, end)
    ensures SegmentsFrom(rs, k, SDO_RESPONSE).0 == Aborted
    decreases end - k
  {
    hide WellFormed, IsLast, SegmentData, ServesSegment;
    if k < end {
      hide IsSegment;
      var n: nat :| ServesSegment(rs[k], value, o, n) && o + n < |value| && BreaksOff(rs, k + 1, value, o + n, end);
      ServedIsRead(rs[k], value, o, n);
      AbortEndsUpload(rs, k + 1, value, o + n, end);
    }
  }

  /** A first answer that aborts is reported, too, unless it is a response with the index that was asked for. Then
      it is taken for the start of a transfer: with an abort code of no more than the bytes that follow, those
      bytes are the object. */
  lemma {:induction false} AbortAtFirst(rs: seq<Msg>, index: nat, psize: int)
    requires rs != [] && AllWellFormed(rs) && rs[0].command == 0x80 && index < 65536
    ensures !(Coe(rs[0], 3) && OfObject(rs[0], index)) ==>
              Transferred(rs, index, psize, SDO_RESPONSE) == (Aborted, [])
    ensures Coe(rs[0], 3) && OfObject(rs[0], index) && Word(rs[0]) <= psize && Word(rs[0]) <= rs[0].length - 10 ==>
              Transferred(rs, index, psize, SDO_RESPONSE) == (Done, rs[0].tail[7..7 + Word(rs[0])])
  {
    hide Word, Index, OfObject;
    IndexIsRead(rs[0], index);
  }

  /** The first message starts a transfer in segments. */
  predicate InSegments(rs: seq<Msg>, index: nat, psize: int)
    requires AllWellFormed(rs)
  {
    Begins(rs, index, psize, SDO_RESPONSE) && !IsExpedited(rs[0]) && InitSize(rs[0]) < Word(rs[0])
  }

  /** The number of the first message from `k` on that is not taken as a segment of the object. */
  function SegmentsEnd(rs: seq<Msg>, k: nat): (end: nat)
    requires k <= |rs|
    ensures k <= end <= |rs|
    decreases |rs| - k
  {
    if k == |rs| || !IsSegment(rs[k], SDO_RESPONSE) then k
    else if IsLast(rs[k]) then k + 1
    else SegmentsEnd(rs, k + 1)
  }

  /** The bytes of the segments `k` to `end` - 1. */
  function SegmentBytes(rs: seq<Msg>, k: nat, end: nat): nat
    requires k <= end <= |rs| && AllWellFormed(rs)
    decreases end - k
  {
    if k == end then 0 else SegmentSize(rs[k]) + SegmentBytes(rs, k + 1, end)
  }

  lemma {:induction false} BytesOfSegments(rs: seq<Msg>, k: nat)
    requires k <= |rs| && AllWellFormed(rs)
    ensures |SegmentsFrom(rs, k, SDO_RESPONSE).1| == SegmentBytes(rs, k, SegmentsEnd(rs, k))
    decreases |rs| - k
  {
    hide SegmentData, SegmentSize, IsSegment, WellFormed;
    if k < |rs| && IsSegment(rs[k], SDO_RESPONSE) {
      if IsLast(rs[k]) {
        assert SegmentBytes(rs, k + 1, k + 1) == 0;
      } else {
        BytesOfSegments(rs, k + 1);
      }
    }
  }

  /** What is read stays within the `psize` bytes of the buffer. */
  predicate StaysInside(rs: seq<Msg>, index: nat, psize: int)
    requires AllWellFormed(rs)
  {
    var data := Transferred(rs, index, psize, SDO_RESPONSE).1;
    data == [] || |data| <= psize
  }

  /** Only the size that the first message announces is compared with the room of the buffer, not what the
      segments bring. A read stays within the buffer exactly if it is not in segments or their bytes fit. */
  lemma {:induction false} StaysInsideIff(rs: seq<Msg>, index: nat, psize: int)
    requires AllWellFormed(rs)
    ensures StaysInside(rs, index, psize) <==>
              (InSegments(rs, index, psize) ==>
                 InitSize(rs[0]) + SegmentBytes(rs, 1, SegmentsEnd(rs, 1)) <= psize)
  {
    hide IsSegment, IsLast, Has, Index, Word, SegmentsFrom, SegmentsEnd, SegmentBytes, Refusal;
    if InSegments(rs, index, psize) {
      BytesOfSegments(rs, 1);
      assert |InitData(rs[0])| == InitSize(rs[0]);
    }
  }

  /** The read of an object that a slave serves stays within the buffer, whatever its size. */
  lemma {:induction false} ServedStaysInside(rs: seq<Msg>, index: nat, value: seq<byte>, psize: int)
    requires Serves(rs, index, value)
    ensures StaysInside(rs, index, psize)
  {
    hide Serves;
    UploadIsExact(rs, index, value, psize);
  }

  /** Eight bytes of object 0 are announced, and a last segment brings a hundred. */
  const LONGER := [Msg(COE_TYPE, 10, SDO_RESPONSE * 4096, 0, [0, 0, 0, 8, 0, 0, 0]),
                   Msg(COE_TYPE, 103, SDO_RESPONSE * 4096, 1, seq(100, _ => 0))]

  /** The read into a buffer of eight bytes succeeds, with a hundred bytes. */
  lemma {:induction false} LongerThanAnnounced()
    ensures AllWellFormed(LONGER) && Word(LONGER[0]) == 8
    ensures Transferred(LONGER, 0, 8, SDO_RESPONSE) == (Done, seq(100, _ => 0)) && !StaysInside(LONGER, 0, 8)
  {
    var last: seq<byte> := seq(100, _ => 0);
    assert SegmentData(LONGER[1]) == last[..100] == last;
    assert SegmentsFrom(LONGER, 1, SDO_RESPONSE) == (Done, last);
    assert InitData(LONGER[0]) == [] && [] + last == last;
  }
}
