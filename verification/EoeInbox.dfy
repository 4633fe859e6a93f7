/** What the reception of a frame in one go makes of any messages at all, not only of those of one frame. */
module EoeInbox {
  import opened Memory
  import opened EoeSend
  import opened EoeReceive
  import opened EoeReassembly

  /** The message continues the frame of the parts before it, or opens it. Inside a frame the code takes a
      fragment number of 0 as well. */
  ghost predicate LinkAt(parts: seq<Mail>, frameno: nat, i: nat)
    requires i < |parts|
  {
    && (FragNo(parts[i]) == i || FragNo(parts[i]) == 0) && FrameNo(parts[i]) == frameno
    && (i > 0 ==> 32 * OffsetField(parts[i]) == |Content(parts[..i])|)
  }

  /** Messages with the same frame number, each at the position where the one before it ends. */
  ghost predicate Linked(parts: seq<Mail>, frameno: nat) {
    forall i {:trigger LinkAt(parts, frameno, i)} :: 0 <= i < |parts| ==> LinkAt(parts, frameno, i)
  }

  /** The parts of the frame with a message that is not refused, if its data fit. */
  ghost function Extended(rx: Rx, parts: seq<Mail>, m: Mail): seq<Mail> {
    var offset := if rx.fragmentno == 0 then 0 else rx.offset;
    var before := if rx.fragmentno == 0 then [] else parts;
    if offset + DataSize(m) <= |rx.buf| then before + [m] else before
  }

  /** The parts that count for the messages to come; the counter has eight bits and may be back at 0. */
  ghost function Current(rx: Rx, parts: seq<Mail>): seq<Mail> {
    if rx.fragmentno == 0 then [] else parts
  }

  /** The number of the message that ends the reception, and the parts of the frame by then. */
  ghost function EndFrom(inbox: seq<Mail>, k: nat, port: nat, rx: Rx, parts: seq<Mail>): (r: (nat, seq<Mail>))
    requires k <= |inbox| && Readable(inbox)
    ensures k <= r.0 <= |inbox|
    decreases |inbox| - k
  {
    if k == |inbox| || !IsEoe(inbox[k]) || Refused(rx, inbox[k], port) then (k, parts)
    else if LastFragment(inbox[k]) then (k, Extended(rx, parts, inbox[k]))
    else
      var next := Taken(rx, inbox[k]);
      EndFrom(inbox, k + 1, port, next, Current(next, Extended(rx, parts, inbox[k])))
  }

  /** The buffer begins with what the parts carry. */
  ghost predicate Carries(rx: Rx, parts: seq<Mail>) {
    && Linked(parts, rx.frameno)
    && rx.offset == |Content(parts)| <= |rx.buf| && rx.buf[..rx.offset] == Content(parts)
  }

  ghost predicate Holds(rx: Rx, parts: seq<Mail>) {
    rx.fragmentno == |parts| < 256 && (rx.fragmentno > 0 ==> Carries(rx, parts))
  }

  lemma {:induction false} LinkMore(parts: seq<Mail>, m: Mail, frameno: nat)
    requires Linked(parts, frameno) && FrameNo(m) == frameno
    requires FragNo(m) == |parts| || FragNo(m) == 0
    requires parts != [] ==> 32 * OffsetField(m) == |Content(parts)|
    ensures Linked(parts + [m], frameno)
  {
    hide FragNo, FrameNo, OffsetField, Content;
    var all := parts + [m];
    forall i | 0 <= i <= |parts| ensures LinkAt(all, frameno, i) {
      if i < |parts| {
        assert LinkAt(parts, frameno, i);
        assert all[..i] == parts[..i];
      } else {
        assert all[..i] == parts;
      }
    }
  }

  /** A message that fits is added to the parts. */
  lemma {:induction false} CarryMore(rx: Rx, parts: seq<Mail>, m: Mail)
    requires Carries(rx, parts) && DataSize(m) <= |m.data| && rx.offset + DataSize(m) <= |rx.buf| < 65536
    requires FrameNo(m) == rx.frameno && (FragNo(m) == |parts| || FragNo(m) == 0)
    requires parts != [] ==> rx.offset == 32 * OffsetField(m)
    ensures Carries(rx.(buf := Patch(rx.buf, rx.offset, m.data[..DataSize(m)]),
                        offset := (rx.offset + DataSize(m)) % 65536, fragmentno := (rx.fragmentno + 1) % 256),
                    parts + [m])
  {
    hide FragNo, FrameNo, OffsetField, DataSize, Linked;
    LinkMore(parts, m, rx.frameno);
    var all := parts + [m];
    assert all[..|parts|] == parts;
    var data := m.data[..DataSize(m)];
    assert Patch(rx.buf, rx.offset, data)[..rx.offset + DataSize(m)] == rx.buf[..rx.offset] + data;
  }

  /** Every message that is not refused keeps the buffer and the parts in step. */
  lemma {:induction false} TakenHolds(rx: Rx, parts: seq<Mail>, m: Mail, port: nat)
    requires Holds(rx, parts) && |rx.buf| < 65536 && DataSize(m) <= |m.data| && !Refused(rx, m, port)
    ensures var next, all := Taken(rx, m), Extended(rx, parts, m);
            Carries(next, all) && Holds(next, Current(next, all))
  {
    hide FragNo, FrameNo, OffsetField, DataSize, Port, Linked, Patch;
    var start := if rx.fragmentno == 0 then rx.(offset := 0, frameno := FrameNo(m)) else rx;
    var before := if rx.fragmentno == 0 then [] else parts;
    StartCarries(rx, parts, m);
    if start.offset + DataSize(m) <= |rx.buf| {
      CarryMore(start, before, m);
    }
  }

  lemma {:induction false} StartCarries(rx: Rx, parts: seq<Mail>, m: Mail)
    requires Holds(rx, parts)
    ensures if rx.fragmentno == 0 then Carries(rx.(offset := 0, frameno := FrameNo(m)), []) else Carries(rx, parts)
  {
  }

  /** A reception that is under way: whatever it delivers is the content of its parts. */
  lemma {:induction false} ReceivesParts(inbox: seq<Mail>, k: nat, port: nat, rx: Rx, parts: seq<Mail>)
    requires k <= |inbox| && Readable(inbox) && Holds(rx, parts) && |rx.buf| < 65536
    ensures var r, e := ReceiveFrom(inbox, k, port, rx), EndFrom(inbox, k, port, rx, parts);
            r.0.Received? ==> e.0 < |inbox| && IsContent(r, inbox[e.0], e.1)
    decreases |inbox| - k
  {
    hide Refused, Holds, Taken, Extended, Current, IsEoe, LastFragment;
    if k < |inbox| && IsEoe(inbox[k]) && !Refused(rx, inbox[k], port) {
      var next := Taken(rx, inbox[k]);
      TakenHolds(rx, parts, inbox[k], port);
      if !LastFragment(inbox[k]) {
        ReceivesParts(inbox, k + 1, port, next, Current(next, Extended(rx, parts, inbox[k])));
      }
    }
  }

  /** A received frame: what its parts carry, less the four bytes of a time stamp. */
  ghost predicate IsContent(r: (Outcome, seq<byte>), last: Mail, parts: seq<Mail>) {
    var all := Content(parts);
    && r.0.Received? && r.0.size == (if TimeAppended(last) then (|all| + 65532) % 65536 else |all|)
    && |all| <= |r.1| && r.1[..|all|] == all && exists frameno :: Linked(parts, frameno)
  }

  /** The parts all come from the mailbox. */
  lemma {:induction false} PartsArrived(inbox: seq<Mail>, k: nat, port: nat, rx: Rx, parts: seq<Mail>, m: Mail)
    requires k <= |inbox| && Readable(inbox) && (m in parts ==> m in inbox)
    requires m in EndFrom(inbox, k, port, rx, parts).1
    ensures m in inbox
    decreases |inbox| - k
  {
    hide Refused, Taken, IsEoe, LastFragment, DataSize;
    if k < |inbox| && IsEoe(inbox[k]) && !Refused(rx, inbox[k], port) && !LastFragment(inbox[k]) {
      var next := Taken(rx, inbox[k]);
      PartsArrived(inbox, k + 1, port, next, Current(next, Extended(rx, parts, inbox[k])), m);
    }
  }

  /** Whatever the mailbox holds: a frame received into a buffer of less than 64 KiB is what some of its
      messages carry, with the same frame number and without a gap. */
  lemma {:induction false} AnyInbox(inbox: seq<Mail>, port: nat, buf: seq<byte>)
    requires Readable(inbox) && |buf| < 65536
    ensures var rx := Rx(0, 0, 0, buf);
            var r, e := ReceiveFrom(inbox, 0, port, rx), EndFrom(inbox, 0, port, rx, []);
            && (r.0.Received? ==> e.0 < |inbox| && IsContent(r, inbox[e.0], e.1))
            && forall m :: m in e.1 ==> m in inbox
  {
    var rx := Rx(0, 0, 0, buf);
    ReceivesParts(inbox, 0, port, rx, []);
    forall m | m in EndFrom(inbox, 0, port, rx, []).1 ensures m in inbox {
      PartsArrived(inbox, 0, port, rx, [], m);
    }
  }

  /** The parts are consecutive fragments of one frame, as those that the reader of single fragments takes,
      exactly if none of them but the first has number 0. */
  lemma {:induction false} ConsecutiveIff(parts: seq<Mail>, frameno: nat)
    requires Linked(parts, frameno)
    ensures (exists framesize :: Consecutive(parts, frameno, framesize))
            <==> forall i {:trigger parts[i]} :: 0 < i < |parts| ==> FragNo(parts[i]) != 0
  {
    hide FragNo, FrameNo, OffsetField, Content;
    if framesize :| Consecutive(parts, frameno, framesize) {
      forall i | 0 < i < |parts| ensures FragNo(parts[i]) != 0 {
        assert PartAt(parts, frameno, framesize, i);
      }
    }
    if forall i {:trigger parts[i]} :: 0 < i < |parts| ==> FragNo(parts[i]) != 0 {
      var framesize := if parts == [] then 0 else 32 * OffsetField(parts[0]);
      forall i | 0 <= i < |parts| ensures PartAt(parts, frameno, framesize, i) {
        assert LinkAt(parts, frameno, i);
      }
      assert Consecutive(parts, frameno, framesize);
    }
  }

  /** Two messages that each open a frame of 32 bytes; the second one is the only fragment of its frame. */
  const BLOCK: seq<byte> := seq(32, i => 0)
  const TWO_STARTS := [Mail(EOE_TYPE, 36, Info1(false, 0), Info2(0, 1, 1), BLOCK),
                       Mail(EOE_TYPE, 36, Info1(true, 0), Info2(0, 1, 1), BLOCK)]

  lemma {:induction false} StartFields()
    ensures forall m :: m in TWO_STARTS ==>
              IsEoe(m) && Port(m) == 0 && FragNo(m) == 0 && OffsetField(m) == 1 && FrameNo(m) == 1 && DataSize(m) == 32
              && !TimeAppended(m)
    ensures !LastFragment(TWO_STARTS[0]) && LastFragment(TWO_STARTS[1])
  {
    hide Info1, Info2;
  }

  /** The reception in one go takes the second one for the continuation of the first and receives 64 bytes.
      The reader of single fragments starts anew and delivers 32. */
  lemma {:induction false} StartTakenForNext(buf: seq<byte>)
    requires |buf| >= 64
    ensures Readable(TWO_STARTS) && ReceiveFrom(TWO_STARTS, 0, 0, Rx(0, 0, 0, buf)).0 == Received(64)
    ensures var sizes := [|buf|, |buf|];
            Readings(TWO_STARTS, sizes, |buf|)
            && LastRead(State(0, 0, 0, 0, buf), TWO_STARTS, sizes).psize == 32
  {
    StartFields();
    hide IsEoe, Port, FragNo, OffsetField, FrameNo, DataSize, TimeAppended, LastFragment, Patch, Info1, Info2;
    var rx := Taken(Rx(0, 0, 0, buf), TWO_STARTS[0]);
    assert rx == Rx(1, 1, 32, rx.buf);
    assert ReceiveFrom(TWO_STARTS, 1, 0, rx).0 == Received(64);
    var st, sizes := State(0, 0, 0, 0, buf), [|buf|, |buf|];
    assert Run(st, TWO_STARTS, sizes, 0) == st;
    var s1 := Run(st, TWO_STARTS, sizes, 1);
    assert s1 == State(1, 32, 32, 1, s1.buf);
  }
}
