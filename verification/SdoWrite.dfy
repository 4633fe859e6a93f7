/** Writing an object to a slave (ecx_SDOwrite). */
module SdoWrite {
  import opened Memory
  import opened SdoMessages
  import opened SdoWire

  const DOWN_INIT := 0x21
  const DOWN_INIT_CA := 0x31
  const DOWN_EXP := 0x23
  const MAX_MAILBOX := 1486
  const TAIL := MAX_MAILBOX + 1 - 9

  /** What a mailbox of `mbxl` bytes can take, and the data of a segment. */
  predicate FitsMailbox(m: Msg, mbxl: nat) { m.length + 6 <= mbxl }

  predicate FillsMailbox(m: Msg, mbxl: nat) { m.length + 6 == mbxl }

  /** The data that the first `k` messages carry, read by the rules of the reader. */
  function Collected(msgs: seq<Msg>, k: nat): seq<byte>
    requires k <= |msgs| && AllWellFormed(msgs)
  {
    if k == 0 then []
    else if k == 1 then (if IsExpedited(msgs[0]) then ExpeditedData(msgs[0]) else InitData(msgs[0]))
    else Collected(msgs, k - 1) + SegmentData(msgs[k - 1])
  }

  /** The initial message of a normal transfer: the size of the object and its first bytes. */
  ghost predicate IsInit(m: Msg, data: seq<byte>, n: nat, index: nat, subindex: nat, ca: bool) {
    && WellFormed(m) && Coe(m, 2) && About(m, index, if ca && subindex > 1 then 1 else subindex)
    && m.command == (if ca then 0x31 else 0x21) && InitOf(m, data, n)
  }

  /** Segment `k` carries the `n` bytes from position `o` on; the toggle alternates from 0. */
  ghost predicate IsSegmentOf(m: Msg, data: seq<byte>, o: nat, n: nat, k: nat, last: bool) {
    k > 0 && SegmentOf(m, 2, data, o, n, last, (k - 1) % 2, if n < 7 then 7 - n else 0)
  }

  /** Index, subindex and first word, with which most messages begin. */
  function Head(index: nat, subindex: byte, word: nat): (h: seq<byte>)
    ensures |h| == 7
  {
    Little(index, 2) + [subindex] + Little(word, 4)
  }

  lemma {:induction false} HeadIsRead(m: Msg, index: nat, subindex: byte, word: nat)
    requires index < 65536 && word < 0x1_0000_0000 && |m.tail| >= 7 && m.tail[..7] == Head(index, subindex, word)
    ensures About(m, index, subindex) && Carries(m, word)
  {
    hide Little;
    var h := Head(index, subindex, word);
    assert m.tail[..2] == h[..2] && m.tail[2] == h[2] && m.tail[3..7] == h[3..7];
  }

  lemma {:induction false} PatchBegins(b: seq<byte>, d: seq<byte>)
    requires |d| <= |b|
    ensures Patch(b, 0, d)[..|d|] == d
  {
  }

  /** The initial message, made in the buffer `out`. */
  method MakeInit(out: array<byte>, data: seq<byte>, n: nat, index: nat, subindex: byte, ca: bool, counter: nat)
    returns (m: Msg)
    requires out.Length == TAIL && n <= |data| < 0x8000_0000 && 7 + n <= TAIL && index < 65536
    modifies out
    ensures IsInit(m, data, n, index, subindex, ca) && m.length == 10 + n
  {
    hide Patch, Head;
    var sub: byte := if ca && subindex > 1 then 1 else subindex;
    var head := Head(index, sub, |data|);
    ghost var before := out[..];
    CopyIn(out, 0, head + data[..n]);
    PatchBegins(before, head + data[..n]);
    m := Msg(COE_TYPE + counter % 8 * 16, 10 + n, SDO_REQUEST * 4096, if ca then DOWN_INIT_CA else DOWN_INIT, out[..]);
    TailBegins(m.tail, head, data[..n]);
    HeadIsRead(m, index, sub, |data|);
    hide About, Carries;
  }

  lemma {:induction false} TailBegins(t: seq<byte>, head: seq<byte>, d: seq<byte>)
    requires |head| == 7 && 7 + |d| <= |t| && t[..7 + |d|] == head + d
    ensures t[..7] == head && t[7..7 + |d|] == d
  {
    assert t[..7] == t[..7 + |d|][..7];
    assert t[7..7 + |d|] == t[..7 + |d|][7..];
  }

  /** The only message of an expedited transfer: up to four bytes in place of the size. */
  method MakeExpedited(out: array<byte>, data: seq<byte>, index: nat, subindex: byte, counter: nat) returns (m: Msg)
    requires out.Length == TAIL && |data| <= 4 && index < 65536 && forall i :: 0 <= i < TAIL ==> out[i] == 0
    modifies out
    ensures IsExpeditedOf(m, data, index, subindex)
  {
    hide Little;
    var head := Little(index, 2) + [subindex];
    CopyIn(out, 0, head + data);
    m := Msg(COE_TYPE + counter % 8 * 16, 10, SDO_REQUEST * 4096, DOWN_EXP + (4 - |data|) % 4 * 4, out[..]);
    assert m.tail[..2] == head[..2] && m.tail[2] == head[2];
  }

  ghost predicate IsExpeditedOf(m: Msg, data: seq<byte>, index: nat, subindex: nat) {
    && |data| <= 4 && WellFormed(m) && Coe(m, 2) && About(m, index, subindex) && m.length == 10
    && m.command == 0x23 + 4 * ((4 - |data|) % 4)
    && m.tail[3..3 + |data|] == data && forall i :: 3 + |data| <= i < 7 ==> m.tail[i] == 0
  }

  /** The command byte of a segment; the size field tells how many bytes of 7 are not used. */
  function SegmentCommand(last: bool, n: nat, toggle: nat): (c: nat)
    requires toggle < 2
    ensures last || n >= 7 ==> c == SegmentCode(toggle, if n < 7 then 7 - n else 0, last)
  {
    (if last then (if n < 7 then 1 + (7 - n) * 2 else 1) else 0) + 16 * toggle
  }

  /** A segment, made in the buffer `out`. */
  method MakeSegment(out: array<byte>, data: seq<byte>, o: nat, n: nat, last: bool, toggle: nat, counter: nat,
                     ghost k: nat)
      returns (m: Msg)
    requires out.Length == TAIL && o + n <= |data| && n <= TAIL
    requires k > 0 && toggle == (k - 1) % 2 && (n < 7 ==> last)
    modifies out
    ensures IsSegmentOf(m, data, o, n, k, last) && m.length == 3 + (if n < 7 then 7 else n)
  {
    hide Patch;
    ghost var before := out[..];
    CopyIn(out, 0, data[o..o + n]);
    PatchBegins(before, data[o..o + n]);
    m := Msg(COE_TYPE + counter % 8 * 16, if last && n < 7 then 10 else n + 3, SDO_REQUEST * 4096,
             SegmentCommand(last, n, toggle), out[..]);
  }

  /** The messages of a normal transfer after `o` bytes: sizes, toggles and marks are in order, all but the last
      one fill the mailbox, and the reader collects the first `o` bytes of the object from them. */
  ghost predicate Downloads(msgs: seq<Msg>, data: seq<byte>, index: nat, subindex: nat, ca: bool, mbxl: nat, o: nat) {
    && msgs != [] && AllWellFormed(msgs)
    && IsInit(msgs[0], data, InitSize(msgs[0]), index, subindex, ca)
    && (|msgs| > 1 ==> InitSize(msgs[0]) < |data|)
    && (forall k {:trigger msgs[k]} :: 0 <= k < |msgs| ==>
          FitsMailbox(msgs[k], mbxl) && (k < |msgs| - 1 ==> FillsMailbox(msgs[k], mbxl)))
    && (forall k {:trigger msgs[k]} :: 1 <= k < |msgs| ==>
          IsSegment(msgs[k], SDO_REQUEST) && Toggle(msgs[k]) == (k - 1) % 2 && (k < |msgs| - 1 ==> !IsLast(msgs[k])))
    && o <= |data| && Collected(msgs, |msgs|) == data[..o]
  }

  /** No segment is to follow. */
  predicate Closed(msgs: seq<Msg>) { |msgs| > 1 ==> IsLast(msgs[|msgs| - 1]) }

  lemma {:induction false} SameCollected(msgs: seq<Msg>, m: Msg, k: nat)
    requires k <= |msgs| && AllWellFormed(msgs) && WellFormed(m)
    ensures AllWellFormed(msgs + [m]) && Collected(msgs + [m], k) == Collected(msgs, k)
  {
    hide WellFormed, IsExpedited, ExpeditedData, InitData, SegmentData;
    if k > 1 {
      SameCollected(msgs, m, k - 1);
    }
  }

  lemma {:induction false} InitStarts(m: Msg, data: seq<byte>, n: nat, index: nat, subindex: nat, ca: bool, mbxl: nat)
    requires IsInit(m, data, n, index, subindex, ca) && FitsMailbox(m, mbxl)
    ensures Downloads([m], data, index, subindex, ca, mbxl, n)
  {
    InitIsRead(m, data, n);
    hide InitOf, About, InitData;
  }

  lemma {:induction false} SegmentRead(m: Msg, data: seq<byte>, o: nat, n: nat, k: nat, last: bool)
    requires IsSegmentOf(m, data, o, n, k, last)
    ensures WellFormed(m) && IsSegment(m, SDO_REQUEST) && k > 0 && Toggle(m) == (k - 1) % 2
    ensures o + n <= |data| && SegmentData(m) == data[o..o + n] && (IsLast(m) <==> last)
  {
    SegmentIsRead(m, 2, data, o, n, last, (k - 1) % 2, if n < 7 then 7 - n else 0);
    hide WellFormed, IsSegment, SegmentData;
  }

  lemma {:induction false} SegmentFollows(msgs: seq<Msg>, m: Msg, data: seq<byte>, index: nat, subindex: nat, ca: bool,
                                          mbxl: nat, o: nat, n: nat, last: bool)
    requires Downloads(msgs, data, index, subindex, ca, mbxl, o) && InitSize(msgs[0]) < |data|
    requires (|msgs| > 1 ==> !IsLast(msgs[|msgs| - 1])) && FillsMailbox(msgs[|msgs| - 1], mbxl)
    requires IsSegmentOf(m, data, o, n, |msgs|, last) && FitsMailbox(m, mbxl)
    ensures Downloads(msgs + [m], data, index, subindex, ca, mbxl, o + n)
    ensures Closed(msgs + [m]) <==> last
  {
    SegmentRead(m, data, o, n, |msgs|, last);
    hide WellFormed, IsSegmentOf, Has, IsInit, FitsMailbox, FillsMailbox, IsSegment, Toggle, IsLast, Collected,
         SegmentData;
    SameCollected(msgs, m, |msgs|);
    CollectNext(msgs, m);
    assert data[..o] + data[o..o + n] == data[..o + n];
  }

  lemma {:induction false} CollectNext(msgs: seq<Msg>, m: Msg)
    requires msgs != [] && AllWellFormed(msgs) && WellFormed(m)
    ensures AllWellFormed(msgs + [m]) && Collected(msgs + [m], |msgs| + 1) == Collected(msgs, |msgs|) + SegmentData(m)
  {
    hide WellFormed, IsExpedited, ExpeditedData, InitData, SegmentData;
    SameCollected(msgs, m, |msgs|);
  }

  /** The slave's answers to the messages; there may be none. */
  predicate InitAccepted(a: Msg, index: nat, subindex: nat)
    requires WellFormed(a)
  {
    Has(a, SDO_RESPONSE) && Index(a) == index && SubIndex(a) == subindex
  }

  predicate SegmentAccepted(a: Msg) { Has(a, SDO_RESPONSE) && a.command / 32 % 8 == 1 }

  predicate Refuses(a: Option<Msg>) { a.Some? && !SegmentAccepted(a.value) }

  /** What the answers to the initial message and to a segment mean for the caller. */
  function InitOutcome(answer: Option<Msg>, index: nat, subindex: nat): Outcome
    requires answer.Some? ==> WellFormed(answer.value)
  {
    if answer.None? then NoAnswer
    else if InitAccepted(answer.value, index, subindex) then Done else Refusal(answer.value)
  }

  function SegmentOutcome(answer: Option<Msg>): Outcome {
    if answer.None? then NoAnswer else if SegmentAccepted(answer.value) then Done else Refusal(answer.value)
  }

  /** How the segments came to an end: the outcome is that of the last one, and none before it was
      refused. */
  ghost predicate EndsWith(answers: nat -> Option<Msg>, sent: seq<Msg>, outcome: Outcome) {
    && sent != []
    && outcome == (if |sent| == 1 then Done else SegmentOutcome(answers(|sent| - 1)))
    && forall k {:trigger answers(k)} :: 1 <= k < |sent| - 1 ==> !Refuses(answers(k))
  }

  /** How a transfer ends: with the answer to the initial message, if that is not accepted, or with one to a
      segment. */
  ghost predicate Concludes(answers: nat -> Option<Msg>, index: nat, subindex: nat, sent: seq<Msg>, outcome: Outcome)
    requires Answers(answers)
  {
    var first := InitOutcome(answers(0), index, subindex);
    if first.Done? then EndsWith(answers, sent, outcome) else |sent| == 1 && outcome == first
  }

  ghost predicate Answers(answers: nat -> Option<Msg>) {
    forall k {:trigger answers(k)} :: answers(k).Some? ==> WellFormed(answers(k).value)
  }

  ghost predicate AllAccept(answers: nat -> Option<Msg>, index: nat, subindex: nat)
    requires Answers(answers)
  {
    && answers(0).Some? && InitAccepted(answers(0).value, index, subindex)
    && forall k {:trigger answers(k)} :: k > 0 ==> answers(k).Some? && SegmentAccepted(answers(k).value)
  }

  lemma {:induction false} AcceptedMeansDone(answers: nat -> Option<Msg>, index: nat, subindex: nat, k: nat)
    requires Answers(answers) && AllAccept(answers, index, subindex)
    ensures InitOutcome(answers(0), index, subindex).Done?
    ensures k > 0 ==> SegmentOutcome(answers(k)).Done? && !Refuses(answers(k))
  {
    hide InitAccepted, SegmentAccepted, WellFormed;
    assert answers(k).Some?;
  }

  /** The slave's answer to the initial message is accepted if it is a response for the same index and subindex,
      whatever its command byte is. */
  lemma {:induction false} InitAcceptedIs(a: Msg, index: nat, subindex: nat)
    requires WellFormed(a) && index < 65536
    ensures InitAccepted(a, index, subindex) <==> Coe(a, 3) && About(a, index, subindex)
  {
    IndexIsRead(a, index);
    hide Index, OfObject;
  }

  /** The answer to a segment is accepted if it is a response with a command byte from 0x20 to 0x3f. */
  lemma {:induction false} SegmentAcceptedIs(a: Msg)
    requires WellFormed(a)
    ensures SegmentAccepted(a) <==> Coe(a, 3) && 0x20 <= a.command <= 0x3f
    ensures a.command == 0x80 ==> Refusal(a).Aborted?
  {
  }

  /** A slave that confirms a download accepts all its messages. */
  lemma {:induction false} ConfirmedIsAccepted(answers: nat -> Option<Msg>, index: nat, subindex: nat)
    requires Answers(answers) && Confirms(answers, index, subindex) && index < 65536
    ensures AllAccept(answers, index, subindex)
  {
    hide WellFormed, InitAccepted, SegmentAccepted, About, Coe;
    InitAcceptedIs(answers(0).value, index, subindex);
    forall k {:trigger answers(k)} | k > 0 ensures SegmentAccepted(answers(k).value) {
      SegmentAcceptedIs(answers(k).value);
    }
  }

  /** A transfer that is aborted by the answer to a message it has sent ends with that message. The answer to the
      initial message is an exception: if it is a response for the object, it is taken for a confirmation. */
  lemma {:induction false} AbortEnds(answers: nat -> Option<Msg>, index: nat, subindex: nat, sent: seq<Msg>,
                                     outcome: Outcome, k: nat)
    requires Answers(answers) && index < 65536 && k < |sent| && Aborts(answers(k))
    requires Concludes(answers, index, subindex, sent, outcome)
    ensures k > 0 ==> k == |sent| - 1 && outcome.Aborted?
    ensures k == 0 ==> (outcome.Aborted? && |sent| == 1 <==>
                        !(Coe(answers(0).value, 3) && About(answers(0).value, index, subindex)))
  {
    hide InitAccepted, SegmentAccepted, WellFormed, Refusal;
    var a := answers(k).value;
    SegmentAcceptedIs(a);
    if k == 0 {
      InitAcceptedIs(a, index, subindex);
    }
  }

  lemma {:induction false} ConfirmedEnds(answers: nat -> Option<Msg>, index: nat, subindex: nat, sent: seq<Msg>,
                                         outcome: Outcome)
    requires Answers(answers) && index < 65536 && sent != [] && Confirms(answers, index, subindex)
    requires Concludes(answers, index, subindex, sent, outcome)
    ensures outcome.Done? && InitOutcome(answers(0), index, subindex).Done?
    ensures |sent| > 1 ==> !Refuses(answers(|sent| - 1))
  {
    hide WellFormed, InitOutcome, SegmentOutcome, Refuses, Confirms, AllAccept;
    ConfirmedIsAccepted(answers, index, subindex);
    AcceptedMeansDone(answers, index, subindex, |sent| - 1);
    AcceptedMeansDone(answers, index, subindex, 0);
  }

  /** The side of the master: the size of the slave's mailbox and the message counter. */
  class Writer {
    const mbxl: nat
    var counter: nat

    constructor (mbxl: nat)
      ensures this.mbxl == mbxl
    {
      this.mbxl, counter := mbxl, 0;
    }

    method NextCounter()
      modifies this
    {
      counter := if counter + 1 > 7 then 1 else counter + 1;
    }

    /** A single message with up to four bytes. */
    method WriteExpedited(answers: nat -> Option<Msg>, index: nat, subindex: byte, data: seq<byte>)
        returns (outcome: Outcome, sent: seq<Msg>)
      requires index < 65536 && |data| <= 4 && Answers(answers)
      modifies this
      ensures |sent| == 1 && IsExpeditedOf(sent[0], data, index, subindex)
      ensures Concludes(answers, index, subindex, sent, outcome)
    {
      var out := new byte[TAIL](_ => 0);
      NextCounter();
      var m := MakeExpedited(out, data, index, subindex, counter);
      sent := [m];
      outcome := InitOutcome(answers(0), index, subindex);
    }

    /** An initial message and as many segments as it takes. A segment that is not answered does not
        stop the transfer, one that is refused does. */
    method WriteNormal(answers: nat -> Option<Msg>, index: nat, subindex: byte, ca: bool, data: seq<byte>)
        returns (outcome: Outcome, sent: seq<Msg>, ghost written: nat)
      requires 16 <= mbxl <= MAX_MAILBOX && index < 65536 && |data| < 0x8000_0000 && Answers(answers)
      modifies this
      ensures Downloads(sent, data, index, subindex, ca, mbxl, written)
      ensures var first := InitOutcome(answers(0), index, if ca && subindex > 1 then 1 else subindex);
              first.Done? ==> Written(sent, data, written) || (|sent| > 1 && Refuses(answers(|sent| - 1)))
      ensures Concludes(answers, index, if ca && subindex > 1 then 1 else subindex, sent, outcome)
    {
      hide Downloads, IsInit, IsSegmentOf, InitAccepted, SegmentAccepted, WellFormed;
      var out := new byte[TAIL](_ => 0);
      var maxdata: nat := mbxl - 16;
      var framedatasize := |data| % 65536;
      var notLast := false;
      if framedatasize > maxdata {
        framedatasize := maxdata;
        notLast := true;
      }
      NextCounter();
      var m := MakeInit(out, data, framedatasize, index, subindex, ca, counter);
      InitStarts(m, data, framedatasize, index, subindex, ca, mbxl);
      sent, written := [m], framedatasize;
      outcome := InitOutcome(answers(0), index, if ca && subindex > 1 then 1 else subindex);
      if !outcome.Done? {
        return;
      }
      outcome, sent, written := WriteSegments(answers, data, maxdata + 7, notLast, out, index, subindex, ca, sent,
                                              framedatasize);
    }

    /** The segments after the initial message. */
    method WriteSegments(answers: nat -> Option<Msg>, data: seq<byte>, maxdata: nat, more: bool, out: array<byte>,
                         ghost index: nat, ghost subindex: nat, ghost ca: bool, sent0: seq<Msg>, written0: nat)
        returns (outcome: Outcome, sent: seq<Msg>, ghost written: nat)
      requires maxdata == mbxl - 9 && 16 <= mbxl <= MAX_MAILBOX && out.Length == TAIL && Answers(answers)
      requires |sent0| == 1 && Downloads(sent0, data, index, subindex, ca, mbxl, written0)
      requires more ==> InitSize(sent0[0]) < |data| && FillsMailbox(sent0[0], mbxl)
      requires Remains(data, written0, more)
      modifies this, out
      ensures Downloads(sent, data, index, subindex, ca, mbxl, written)
      ensures EndsWith(answers, sent, outcome)
              && (Written(sent, data, written) || (|sent| > 1 && Refuses(answers(|sent| - 1))))
    {
      hide Downloads, IsSegmentOf, SegmentAccepted, WellFormed;
      outcome, sent, written := Done, sent0, written0;
      var o := written0;
      var notLast := more;
      var toggle := 0;
      while notLast
        modifies this, out
        invariant sent != [] && sent[0] == sent0[0] && o == written <= |data|
        invariant Downloads(sent, data, index, subindex, ca, mbxl, written)
        invariant notLast ==> (|sent| == 1 || !IsLast(sent[|sent| - 1])) && FillsMailbox(sent[|sent| - 1], mbxl)
        invariant toggle == (|sent| - 1) % 2
        invariant EndsWith(answers, sent, outcome)
        invariant notLast ==> Remains(data, written, true) && (|sent| == 1 || !Refuses(answers(|sent| - 1)))
        invariant notLast || (Closed(sent) && Remains(data, written, false))
                  || (|sent| > 1 && Refuses(answers(|sent| - 1)))
        decreases notLast, |data| - o
      {
        var framedatasize := (|data| - o) % 65536;
        notLast := false;
        if framedatasize > maxdata {
          framedatasize := maxdata;
          notLast := true;
        }
        NextCounter();
        var m := MakeSegment(out, data, o, framedatasize, !notLast, toggle, counter, |sent|);
        SegmentFollows(sent, m, data, index, subindex, ca, mbxl, o, framedatasize, !notLast);
        StillRemains(data, o, framedatasize, maxdata, notLast);
        var answer := answers(|sent|);
        sent := sent + [m];
        o := o + framedatasize;
        written := o;
        outcome := SegmentOutcome(answer);
        if Refuses(answer) {
          notLast := false;
        }
        toggle := 1 - toggle;
      }
    }

    /** Writes an object. If the slave confirms all messages, these are read back as its first bytes, as many
        as its size cut to 16 bits; that is the object exactly if it has at most 65535 bytes and, outside
        complete access, at least one. If the slave aborts the transfer, it ends there. */
    method Write(answers: nat -> Option<Msg>, index: nat, subindex: byte, ca: bool, data: seq<byte>)
        returns (outcome: Outcome, sent: seq<Msg>)
      requires 16 <= mbxl <= MAX_MAILBOX && index < 65536 && |data| < 0x8000_0000 && Answers(answers)
      modifies this
      ensures AllWellFormed(sent) && sent != []
      ensures forall k {:trigger sent[k]} :: 0 <= k < |sent| ==> FitsMailbox(sent[k], mbxl)
      ensures |data| <= 4 && !ca ==> |sent| == 1 && IsExpeditedOf(sent[0], data, index, subindex)
      ensures |data| > 4 || ca ==> exists o :: Downloads(sent, data, index, subindex, ca, mbxl, o)
      ensures forall k {:trigger answers(k)} :: 1 <= k < |sent| && Aborts(answers(k)) ==>
                k == |sent| - 1 && outcome.Aborted?
      ensures Aborts(answers(0)) ==>
                var a, sub := answers(0).value, if ca && subindex > 1 then 1 else subindex;
                outcome.Aborted? && |sent| == 1 <==> !(Coe(a, 3) && About(a, index, sub))
      ensures Confirms(answers, index, if ca && subindex > 1 then 1 else subindex) ==>
                && outcome.Done?
                && (|data| > 4 || ca ==> Transferred(sent, index, |data|, SDO_REQUEST).1 == data[..|data| % 65536])
                && (Transferred(sent, index, |data|, SDO_REQUEST) == (Done, data)
                    <==> |data| <= 65535 && (ca || data != []))
    {
      hide IsInit, Transferred, IsSegment, Collected, InitOutcome, SegmentOutcome, Refuses, Confirms, About, Concludes,
           EndsWith, Aborts, Coe;
      ghost var sub := if ca && subindex > 1 then 1 else subindex;
      if |data| <= 4 && !ca {
        outcome, sent := WriteExpedited(answers, index, subindex, data);
        ExpeditedIsRead(sent[0], data, index, subindex);
        assert sent == [sent[0]];
        if Confirms(answers, index, sub) {
          ConfirmedEnds(answers, index, sub, sent, outcome);
        }
      } else {
        ghost var o: nat;
        outcome, sent, o := WriteNormal(answers, index, subindex, ca, data);
        if Confirms(answers, index, sub) {
          ConfirmedEnds(answers, index, sub, sent, outcome);
          DownloadIsRead(sent, data, index, subindex, ca, mbxl, o);
        }
      }
      AnswersAbort(answers, index, sub, sent, outcome);
    }
  }

  lemma {:induction false} AnswersAbort(answers: nat -> Option<Msg>, index: nat, subindex: nat, sent: seq<Msg>,
                                        outcome: Outcome)
    requires Answers(answers) && index < 65536 && sent != [] && Concludes(answers, index, subindex, sent, outcome)
    ensures forall k {:trigger answers(k)} :: 1 <= k < |sent| && Aborts(answers(k)) ==>
              k == |sent| - 1 && outcome.Aborted?
    ensures Aborts(answers(0)) ==>
              (outcome.Aborted? && |sent| == 1 <==>
               !(Coe(answers(0).value, 3) && About(answers(0).value, index, subindex)))
  {
    hide Concludes, About, Coe;
    forall k {:trigger answers(k)} | 1 <= k < |sent| && Aborts(answers(k)) ensures k == |sent| - 1 && outcome.Aborted? {
      AbortEnds(answers, index, subindex, sent, outcome, k);
    }
    if Aborts(answers(0)) {
      AbortEnds(answers, index, subindex, sent, outcome, 0);
    }
  }

  /** All that is going to be written has been: the size is cut to 16 bits before each message. */
  ghost predicate Written(sent: seq<Msg>, data: seq<byte>, written: nat) {
    Closed(sent) && written == |data| % 65536
  }

  /** What is left to be written after `o` bytes: as long as it takes to reach the size cut to 16 bits. */
  ghost predicate Remains(data: seq<byte>, o: nat, more: bool) {
    o <= |data| % 65536 && (more <==> o < |data| % 65536)
  }

  lemma {:induction false} StillRemains(data: seq<byte>, o: nat, n: nat, maxdata: nat, more: bool)
    requires Remains(data, o, true)
    requires n == (if (|data| - o) % 65536 > maxdata then maxdata else (|data| - o) % 65536)
    requires more <==> (|data| - o) % 65536 > maxdata
    ensures o + n <= |data| && Remains(data, o + n, more)
  {
    assert (|data| - o) % 65536 == |data| % 65536 - o;
  }

  lemma {:induction false} SegmentsCollect(msgs: seq<Msg>, k: nat)
    requires 1 <= k < |msgs| && AllWellFormed(msgs) && IsLast(msgs[|msgs| - 1])
    requires forall i {:trigger msgs[i]} :: 1 <= i < |msgs| ==>
               IsSegment(msgs[i], SDO_REQUEST) && (i < |msgs| - 1 ==> !IsLast(msgs[i]))
    ensures SegmentsFrom(msgs, k, SDO_REQUEST).0.Done?
    ensures Collected(msgs, k) + SegmentsFrom(msgs, k, SDO_REQUEST).1 == Collected(msgs, |msgs|)
    decreases |msgs| - k
  {
    hide IsSegment, IsLast, WellFormed, SegmentData, IsExpedited, ExpeditedData, InitData;
    if k < |msgs| - 1 {
      SegmentsCollect(msgs, k + 1);
      assert Collected(msgs, k) + (SegmentData(msgs[k]) + SegmentsFrom(msgs, k + 1, SDO_REQUEST).1)
             == (Collected(msgs, k) + SegmentData(msgs[k])) + SegmentsFrom(msgs, k + 1, SDO_REQUEST).1;
    }
  }

  lemma {:induction false} InitFacts(m: Msg, data: seq<byte>, index: nat, subindex: nat, ca: bool)
    requires WellFormed(m) && IsInit(m, data, InitSize(m), index, subindex, ca)
    ensures Has(m, SDO_REQUEST) && Index(m) == index && !IsExpedited(m) && Word(m) == |data|
  {
    InitIsRead(m, data, InitSize(m));
    IndexIsRead(m, index);
    hide Index, Word, InitOf, OfObject;
  }

  /** A completed download is read back, by the rules by which the master itself reads, as what has been
      written of the object. */
  lemma {:induction false} DownloadIsRead(msgs: seq<Msg>, data: seq<byte>, index: nat, subindex: nat, ca: bool,
                                          mbxl: nat, o: nat)
    requires Downloads(msgs, data, index, subindex, ca, mbxl, o) && Closed(msgs)
    ensures Transferred(msgs, index, |data|, SDO_REQUEST).1 == data[..o]
    ensures Transferred(msgs, index, |data|, SDO_REQUEST) == (Done, data) <==> o == |data|
  {
    hide WellFormed, Has, Index, Word, FitsMailbox, FillsMailbox, IsSegment, Toggle, IsLast, IsInit, InitData;
    InitFacts(msgs[0], data, index, subindex, ca);
    assert data[..|data|] == data;
    if |msgs| > 1 {
      SegmentsCollect(msgs, 1);
    } else {
      assert InitData(msgs[0]) + [] == InitData(msgs[0]);
      OneMessageIsAll(msgs[0], data, index, subindex, ca);
    }
  }

  /** For example, of an object of 65536 bytes nothing is written at all. */
  lemma {:induction false} NothingOf65536(msgs: seq<Msg>, data: seq<byte>, index: nat, subindex: nat, ca: bool,
                                          mbxl: nat, o: nat)
    requires |data| == 65536 && Downloads(msgs, data, index, subindex, ca, mbxl, o) && Written(msgs, data, o)
    ensures Word(msgs[0]) == 65536 && Transferred(msgs, index, |data|, SDO_REQUEST).1 == []
  {
    hide WellFormed, Has, Index, Word, FitsMailbox, FillsMailbox, IsSegment, Toggle, IsLast, InitData, Transferred;
    InitFacts(msgs[0], data, index, subindex, ca);
    DownloadIsRead(msgs, data, index, subindex, ca, mbxl, o);
  }

  lemma {:induction false} OneMessageIsAll(m: Msg, data: seq<byte>, index: nat, subindex: nat, ca: bool)
    requires WellFormed(m) && IsInit(m, data, InitSize(m), index, subindex, ca)
    ensures InitData(m) == data ==> InitSize(m) == |data|
  {
    InitIsRead(m, data, InitSize(m));
    hide Word, InitData;
  }

  /** An expedited download is read back unchanged unless it has no bytes; this is read as four zeros. */
  lemma {:induction false} ExpeditedIsRead(m: Msg, data: seq<byte>, index: nat, subindex: nat)
    requires IsExpeditedOf(m, data, index, subindex)
    ensures ExpeditedData(m) == if data == [] then [0, 0, 0, 0] else data
    ensures Transferred([m], index, |data|, SDO_REQUEST) == (Done, data) <==> data != []
  {
    IndexIsRead(m, index);
    hide Index, OfObject;
    assert ExpeditedData(m) == if data == [] then [0, 0, 0, 0] else data;
  }
}
