/** Reading an object from a slave (ecx_SDOread). */
module SdoRead {
  import opened Memory
  import opened SdoMessages
  import opened SdoWire

  const UP_REQ := 0x40
  const UP_REQ_CA := 0x50
  const SEG_UP_REQ := 0x60

  /** A request: ten bytes, with the index and subindex asked for. */
  function Request(command: nat, index: nat, subindex: byte, counter: nat): Msg
    requires index < 65536
  {
    Msg(COE_TYPE + counter % 8 * 16, 10, SDO_REQUEST * 4096, command, [index % 256, index / 256, subindex, 0, 0, 0, 0])
  }

  /** A request in a mailbox: the shortest message, without data. */
  ghost predicate IsRequest(m: Msg, command: nat, index: nat, subindex: nat) {
    && Coe(m, 2) && m.length == 10 && m.command == command
    && |m.tail| == 7 && About(m, index, subindex) && Carries(m, 0)
  }

  /** The requests of a transfer: the toggle of the segment requests alternates from 0. */
  ghost predicate AreRequests(requests: seq<Msg>, index: nat, subindex: nat, ca: bool) {
    forall k {:trigger requests[k]} :: 0 <= k < |requests| ==>
      IsRequest(requests[k], if k > 0 then 0x60 + 16 * ((k - 1) % 2) else if ca then 0x50 else 0x40,
                index, if ca && subindex > 1 then 1 else subindex)
  }

  lemma {:induction false} RequestIs(command: nat, index: nat, subindex: byte, counter: nat)
    requires index < 65536
    ensures IsRequest(Request(command, index, subindex, counter), command, index, subindex)
  {
    LittleTwo(index);
    var m := Request(command, index, subindex, counter);
    assert m.tail[..2] == [index % 256, index / 256];
    assert m.tail[3..7] == [0, 0, 0, 0] == Little(0, 4) by { LittleZero(); }
  }

  lemma {:induction false} LittleZero()
    ensures Little(0, 4) == [0, 0, 0, 0]
  {
    assert Little(0, 3) == [0, 0, 0];
  }

  /** The side of the master: its message counter for this slave. */
  class Reader {
    var counter: nat

    constructor ()
    {
      counter := 0;
    }

    method NextRequest(command: nat, index: nat, subindex: byte) returns (m: Msg)
      requires index < 65536
      modifies this
      ensures IsRequest(m, command, index, subindex)
    {
      hide IsRequest;
      counter := if counter + 1 > 7 then 1 else counter + 1;
      m := Request(command, index, subindex, counter);
      RequestIs(command, index, subindex, counter);
    }

    /** Reads an object into a buffer of `psize` bytes; `answers` are the slave's messages. `p` is the memory
        from the start of the buffer on, which may go on behind it: nothing but the size announced by the
        first message is compared with `psize`. */
    method Read(answers: seq<Msg>, index: nat, subindex: byte, ca: bool, psize: int, p: array<byte>)
        returns (outcome: Outcome, size: int, requests: seq<Msg>)
      requires AllWellFormed(answers) && Sized(answers) && index < 65536
      requires |Transferred(answers, index, psize, SDO_RESPONSE).1| <= p.Length
      modifies this, p
      ensures AreRequests(requests, index, subindex, ca)
              && |requests| == AllAskedFor(answers, index, psize, SDO_RESPONSE)
      ensures var t := Transferred(answers, index, psize, SDO_RESPONSE);
              && outcome == t.0
              && p[..] == Patch(old(p[..]), 0, t.1)
              && size == if Begins(answers, index, psize, SDO_RESPONSE) then |t.1| else psize
    {
      hide Has, IsExpedited, ExpeditedData, InitData, Patch, Index, Word, IsRequest;
      var sub: byte := if ca && subindex > 1 then 1 else subindex;
      var request := NextRequest(if ca then UP_REQ_CA else UP_REQ, index, sub);
      requests := [request];
      size := psize;
      PatchNothing(p[..]);
      if answers == [] {
        return NoAnswer, size, requests;
      }
      var m := answers[0];
      if !Has(m, SDO_RESPONSE) || Index(m) != index {
        return Refusal(m), size, requests;
      }
      if IsExpedited(m) {
        var data := ExpeditedData(m);
        if |data| > psize {
          return TooSmall, size, requests;
        }
        CopyIn(p, 0, data);
        return Done, |data|, requests;
      }
      if Word(m) > psize {
        return TooSmall, size, requests;
      }
      CopyIn(p, 0, InitData(m));
      size := |InitData(m)|;
      outcome := Done;
      if InitSize(m) < Word(m) {
        outcome, size, requests := ReadSegments(answers, index, subindex, ca, p, size, requests, old(p[..]));
      }
    }

    /** The segments that follow an initial message whose data are in the buffer already. */
    method ReadSegments(answers: seq<Msg>, index: nat, subindex: byte, ca: bool, p: array<byte>, size0: nat,
                        requests0: seq<Msg>, ghost was: seq<byte>)
        returns (outcome: Outcome, size: nat, requests: seq<Msg>)
      requires AllWellFormed(answers) && answers != [] && index < 65536
      requires size0 == |InitData(answers[0])|
      requires |requests0| == 1 && AreRequests(requests0, index, subindex, ca)
      requires var all := InitData(answers[0]) + SegmentsFrom(answers, 1, SDO_RESPONSE).1;
               |all| <= p.Length == |was| && p[..] == Patch(was, 0, InitData(answers[0]))
      modifies this, p
      ensures AreRequests(requests, index, subindex, ca) && |requests| == 1 + AskedFor(answers, 1, SDO_RESPONSE)
      ensures var rest := SegmentsFrom(answers, 1, SDO_RESPONSE); var all := InitData(answers[0]) + rest.1;
              outcome == rest.0 && p[..] == Patch(was, 0, all) && size == |all|
    {
      hide IsSegment, WellFormed, InitData, SegmentData, SegmentSize, AreRequests, Patch, IsRequest;
      ghost var rest := SegmentsFrom(answers, 1, SDO_RESPONSE);
      ghost var got := InitData(answers[0]);
      var sub: byte := if ca && subindex > 1 then 1 else subindex;
      size, requests := size0, requests0;
      var toggle := 0;
      var k := 1;
      while true
        invariant 1 <= k <= |answers| && k == |requests| && toggle == 16 * ((k - 1) % 2)
        invariant AreRequests(requests, index, subindex, ca)
        invariant k - 1 + AskedFor(answers, k, SDO_RESPONSE) == AskedFor(answers, 1, SDO_RESPONSE)
        invariant got + SegmentsFrom(answers, k, SDO_RESPONSE).1 == InitData(answers[0]) + rest.1
        invariant SegmentsFrom(answers, k, SDO_RESPONSE).0 == rest.0
        invariant size == |got| <= p.Length && p[..] == Patch(was, 0, got)
        decreases |answers| - k
      {
        var request := NextRequest(SEG_UP_REQ + toggle, index, sub);
        AddRequest(requests, request, index, subindex, ca);
        requests := requests + [request];
        if k == |answers| {
          assert got + [] == got;
          return Pending, size, requests;
        }
        var m := answers[k];
        if !IsSegment(m, SDO_RESPONSE) {
          assert got + [] == got;
          return Refusal(m), size, requests;
        }
        PatchMore(was, got, SegmentData(m));
        CopyIn(p, size, SegmentData(m));
        size := size + SegmentSize(m);
        assert IsLast(m) || got + (SegmentData(m) + SegmentsFrom(answers, k + 1, SDO_RESPONSE).1)
                            == (got + SegmentData(m)) + SegmentsFrom(answers, k + 1, SDO_RESPONSE).1;
        got := got + SegmentData(m);
        if IsLast(m) {
          return Done, size, requests;
        }
        toggle := 16 - toggle;
        k := k + 1;
      }
    }
  }

  lemma {:induction false} AddRequest(requests: seq<Msg>, m: Msg, index: nat, subindex: nat, ca: bool)
    requires AreRequests(requests, index, subindex, ca) && requests != []
    requires IsRequest(m, 0x60 + 16 * ((|requests| - 1) % 2), index, if ca && subindex > 1 then 1 else subindex)
    ensures AreRequests(requests + [m], index, subindex, ca)
  {
    hide IsRequest;
  }
}
