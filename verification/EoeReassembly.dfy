/** Ethernet frames put together fragment by fragment (ecx_EOEreadfragment). */
module EoeReassembly {
  import opened Memory
  import opened EoeSend
  import opened EoeReceive

  const PACKET_ERROR := -3
  const INVALID_RX_DATA := -11

  /** The working variables, which the caller keeps between calls, with the frame buffer. */
  datatype State = State(fragmentno: nat, framesize: nat, offset: nat, frameno: nat, buf: seq<byte>)

  datatype Step = Step(state: State, psize: int, wkc: int)

  function Reset(st: State): State { st.(fragmentno := 0, framesize := 0, offset := 0, frameno := 0) }

  /** The state after a message with an unexpected fragment number, or `st` itself. */
  function Resynced(st: State, m: Mail): State {
    if st.fragmentno != FragNo(m) && st.fragmentno != 0 then Reset(st) else st
  }

  /** A fragment that cannot continue the frame. */
  predicate Mismatch(st: State, m: Mail) {
    st.fragmentno != 0 && (st.frameno != FrameNo(m) || st.offset != 32 * OffsetField(m))
  }

  /** The state in which the data of `m` are taken in. */
  function Opened(st: State, m: Mail): State {
    if st.fragmentno == 0 then st.(framesize := 32 * OffsetField(m), offset := 0, frameno := FrameNo(m)) else st
  }

  predicate Accepts(st: State, m: Mail, psize: int) {
    st.offset + DataSize(m) <= st.framesize && st.offset + DataSize(m) <= psize
  }

  function Stored(st: State, m: Mail, psize: int): (r: State)
    requires DataSize(m) <= |m.data| && psize <= |st.buf|
    ensures |r.buf| == |st.buf|
  {
    if Accepts(st, m, psize) then
      st.(buf := Patch(st.buf, st.offset, m.data[..DataSize(m)]),
          offset := (st.offset + DataSize(m)) % 65536, fragmentno := (st.fragmentno + 1) % 256)
    else st
  }

  /** The effect of one message on the working variables, the buffer, and the size of the frame. */
  function Read(st: State, m: Mail, psize: int): (r: Step)
    requires DataSize(m) <= |m.data| && psize <= |st.buf|
    ensures |r.state.buf| == |st.buf|
  {
    if !IsEoe(m) then Step(st, psize, PACKET_ERROR)
    else
      var s0 := Resynced(st, m);
      if s0.fragmentno != FragNo(m) && FragNo(m) > 0 then Step(s0, psize, INVALID_RX_DATA)
      else if Mismatch(s0, m) then Step(Reset(s0), psize, INVALID_RX_DATA)
      else
        var s1 := Stored(Opened(s0, m), m, psize);
        if LastFragment(m) then
          Step(Reset(s1), if TimeAppended(m) then (s1.offset + 65532) % 65536 else s1.offset, 1)
        else Step(s1, psize, 0)
  }

  /** The caller's working variables. */
  class Reassembler {
    var rxfragmentno: nat
    var rxframesize: nat
    var rxframeoffset: nat
    var rxframeno: nat
    const buf: array<byte>

    constructor (buf: array<byte>)
      ensures this.buf == buf
      ensures rxfragmentno == rxframesize == rxframeoffset == rxframeno == 0
    {
      this.buf := buf;
      rxfragmentno, rxframesize, rxframeoffset, rxframeno := 0, 0, 0, 0;
    }

    function Abstract(): State
      reads this, buf
    {
      State(rxfragmentno, rxframesize, rxframeoffset, rxframeno, buf[..])
    }

    /** Stores the data of a fragment behind those of the frame, if they fit. */
    method Store(m: Mail, psize: int)
      requires DataSize(m) <= |m.data| && psize <= buf.Length
      modifies `rxframeoffset, `rxfragmentno, buf
      ensures Abstract() == Stored(old(Abstract()), m, psize)
    {
      hide Patch, DataSize;
      if rxframeoffset + DataSize(m) <= rxframesize && rxframeoffset + DataSize(m) <= psize {
        CopyIn(buf, rxframeoffset, m.data[..DataSize(m)]);
        rxframeoffset := (rxframeoffset + DataSize(m)) % 65536;
        rxfragmentno := (rxfragmentno + 1) % 256;
      }
    }

    method ReadFragment(m: Mail, psize: int) returns (wkc: int, newSize: int)
      requires DataSize(m) <= |m.data| && psize <= buf.Length
      modifies this, buf
      ensures Step(Abstract(), newSize, wkc) == Read(old(Abstract()), m, psize)
    {
      hide IsEoe, Patch, FragNo, FrameNo, OffsetField, LastFragment, TimeAppended, DataSize, Stored;
      wkc, newSize := 0, psize;
      if !IsEoe(m) {
        return PACKET_ERROR, psize;
      }
      if rxfragmentno != FragNo(m) {
        if rxfragmentno != 0 {
          rxfragmentno, rxframesize, rxframeoffset, rxframeno := 0, 0, 0, 0;
        }
        if FragNo(m) > 0 {
          return INVALID_RX_DATA, psize;
        }
      }
      if rxfragmentno == 0 {
        rxframesize := 32 * OffsetField(m);
        rxframeoffset := 0;
        rxframeno := FrameNo(m);
      } else if rxframeno != FrameNo(m) || rxframeoffset != 32 * OffsetField(m) {
        rxfragmentno, rxframesize, rxframeoffset, rxframeno := 0, 0, 0, 0;
        return INVALID_RX_DATA, psize;
      }
      Store(m, psize);
      if LastFragment(m) {
        if TimeAppended(m) {
          rxframeoffset := (rxframeoffset + 65532) % 65536;
        }
        newSize := rxframeoffset;
        rxfragmentno, rxframesize, rxframeoffset, rxframeno := 0, 0, 0, 0;
        wkc := 1;
      }
    }
  }

  /** The data of accepted fragments, one after the other. */
  ghost function Content(parts: seq<Mail>): seq<byte> {
    if parts == [] then []
    else
      var m := parts[|parts| - 1];
      Content(parts[..|parts| - 1]) + (if DataSize(m) <= |m.data| then m.data[..DataSize(m)] else [])
  }

  ghost predicate PartAt(parts: seq<Mail>, frameno: nat, framesize: nat, i: nat)
    requires i < |parts|
  {
    && FragNo(parts[i]) == i && FrameNo(parts[i]) == frameno
    && 32 * OffsetField(parts[i]) == if i == 0 then framesize else |Content(parts[..i])|
  }

  /** Fragments of one frame, numbered from 0 on, each at the position where the one before it ends. */
  ghost predicate Consecutive(parts: seq<Mail>, frameno: nat, framesize: nat) {
    forall i {:trigger PartAt(parts, frameno, framesize, i)} :: 0 <= i < |parts| ==>
        PartAt(parts, frameno, framesize, i)
  }

  /** The buffer begins with what the accepted fragments carry, and this is no more than announced. */
  ghost predicate Holding(st: State, parts: seq<Mail>) {
    && st.fragmentno == |parts| <= 64 && Consecutive(parts, st.frameno, st.framesize)
    && st.offset == |Content(parts)| <= st.framesize <= 2016
    && st.offset <= |st.buf| && st.buf[..st.offset] == Content(parts)
  }

  /** The accepted fragments together with a message that is not refused. */
  ghost function Grown(st: State, parts: seq<Mail>, m: Mail, psize: int): seq<Mail> {
    var s0 := Resynced(st, m);
    var before := if s0.fragmentno == 0 then [] else parts;
    if Accepts(Opened(s0, m), m, psize) then before + [m] else before
  }

  /** The accepted fragments of the frame under way after a message. */
  ghost function Kept(st: State, parts: seq<Mail>, m: Mail, psize: int): seq<Mail>
    requires DataSize(m) <= |m.data| && psize <= |st.buf|
  {
    var r := Read(st, m, psize);
    if r.state.fragmentno == 0 then [] else if r.wkc == 0 then Grown(st, parts, m, psize) else parts
  }

  lemma {:induction false} StoreKeepsHolding(st: State, parts: seq<Mail>, m: Mail, psize: int)
    requires Holding(st, parts) && DataSize(m) <= |m.data| && psize <= |st.buf|
    requires FragNo(m) == |parts| && FrameNo(m) == st.frameno
    requires 32 * OffsetField(m) == if parts == [] then st.framesize else st.offset
    ensures Holding(Stored(st, m, psize), if Accepts(st, m, psize) then parts + [m] else parts)
  {
    hide FragNo, FrameNo, OffsetField, DataSize;
    if Accepts(st, m, psize) {
      var all := parts + [m];
      assert all[..|parts|] == parts;
      AddConsecutive(parts, m, st.frameno, st.framesize);
      var buf := Patch(st.buf, st.offset, m.data[..DataSize(m)]);
      assert buf[..st.offset + DataSize(m)] == st.buf[..st.offset] + m.data[..DataSize(m)];
      FragNoIsSmall(m);
    }
  }

  lemma {:induction false} FragNoIsSmall(m: Mail)
    ensures FragNo(m) < 64 && OffsetField(m) < 64
  {
  }

  lemma {:induction false} AddConsecutive(parts: seq<Mail>, m: Mail, frameno: nat, framesize: nat)
    requires Consecutive(parts, frameno, framesize)
    requires FragNo(m) == |parts| && FrameNo(m) == frameno
    requires 32 * OffsetField(m) == if parts == [] then framesize else |Content(parts)|
    ensures Consecutive(parts + [m], frameno, framesize)
  {
    hide FragNo, FrameNo, OffsetField, Content;
    var all := parts + [m];
    forall i | 0 <= i <= |parts| ensures PartAt(all, frameno, framesize, i) {
      if i < |parts| {
        assert PartAt(parts, frameno, framesize, i);
      }
      assert all[..i] == parts[..i];
      if i == |parts| {
        assert parts[..i] == parts;
      }
    }
  }

  lemma {:induction false} NothingHeld(st: State)
    requires st.fragmentno == st.offset == 0 && st.framesize <= 2016
    ensures Holding(st, [])
  {
  }

  /** A message that is taken in keeps the buffer consistent ... */
  lemma {:induction false} TakeKeepsHolding(st: State, parts: seq<Mail>, m: Mail, psize: int)
    requires Holding(st, parts) && DataSize(m) <= |m.data| && psize <= |st.buf|
    requires var s0 := Resynced(st, m); s0.fragmentno == FragNo(m) && !Mismatch(s0, m)
    ensures Holding(Stored(Opened(Resynced(st, m), m), m, psize), Grown(st, parts, m, psize))
  {
    hide FragNo, FrameNo, OffsetField, DataSize, Content, Consecutive, Stored, Accepts;
    FragNoIsSmall(m);
    var s0 := Resynced(st, m);
    if s0.fragmentno == 0 {
      NothingHeld(Opened(s0, m));
      StoreKeepsHolding(Opened(s0, m), [], m, psize);
    } else {
      SomethingHeld(st, parts);
      StoreKeepsHolding(st, parts, m, psize);
    }
  }

  lemma {:induction false} SomethingHeld(st: State, parts: seq<Mail>)
    requires Holding(st, parts)
    ensures st.fragmentno == |parts| && st.framesize <= 2016
  {
  }

  /** ... and so does every message; a frame that is delivered is what its fragments carry. */
  lemma {:induction false} ReadKeepsHolding(st: State, parts: seq<Mail>, m: Mail, psize: int)
    requires Holding(st, parts) && DataSize(m) <= |m.data| && psize <= |st.buf|
    ensures var r := Read(st, m, psize);
            && Holding(r.state, Kept(st, parts, m, psize))
            && (r.wkc == 1 ==> Delivers(r, m, Grown(st, parts, m, psize)))
  {
    hide FragNo, FrameNo, OffsetField, DataSize, Content, Consecutive, Stored, Accepts, TimeAppended, LastFragment,
         IsEoe;
    SomethingHeld(st, parts);
    NothingHeld(Reset(st));
    var s0 := Resynced(st, m);
    if s0.fragmentno == FragNo(m) && !Mismatch(s0, m) {
      TakeKeepsHolding(st, parts, m, psize);
      DeliveryIsContent(Stored(Opened(s0, m), m, psize), m, Grown(st, parts, m, psize));
      NothingHeld(Reset(Stored(Opened(s0, m), m, psize)));
    }
  }

  /** A delivered frame: the fragments of one frame, in order, without a gap. If the last one says that a time
      stamp is appended, its four bytes do not count; with fewer bytes the 16-bit size wraps. */
  ghost predicate Delivers(r: Step, last: Mail, parts: seq<Mail>) {
    var n := |Content(parts)|;
    && n <= |r.state.buf| && r.state.buf[..n] == Content(parts)
    && r.psize == (if !TimeAppended(last) then n else if n >= 4 then n - 4 else n + 0xfffc)
    && exists frameno, framesize :: Consecutive(parts, frameno, framesize)
  }

  lemma {:induction false} DeliveryIsContent(st: State, last: Mail, parts: seq<Mail>)
    requires Holding(st, parts)
    ensures Delivers(Step(Reset(st), if TimeAppended(last) then (st.offset + 65532) % 65536 else st.offset, 1), last,
                     parts)
  {
    hide Content, Consecutive, TimeAppended;
    assert Consecutive(parts, st.frameno, st.framesize);
  }

  /** Messages, each with the size of the frame buffer that the caller passes along. */
  ghost predicate Readings(mails: seq<Mail>, sizes: seq<int>, capacity: nat) {
    && |sizes| == |mails|
    && forall k {:trigger mails[k]} {:trigger sizes[k]} :: 0 <= k < |mails| ==>
         DataSize(mails[k]) <= |mails[k].data| && sizes[k] <= capacity
  }

  /** The state after the first `k` messages. */
  ghost function Run(st: State, mails: seq<Mail>, sizes: seq<int>, k: nat): (r: State)
    requires k <= |mails| && Readings(mails, sizes, |st.buf|)
    ensures |r.buf| == |st.buf|
  {
    if k == 0 then st else Read(Run(st, mails, sizes, k - 1), mails[k - 1], sizes[k - 1]).state
  }

  ghost function KeptAfter(st: State, mails: seq<Mail>, sizes: seq<int>, k: nat): seq<Mail>
    requires k <= |mails| && Readings(mails, sizes, |st.buf|)
  {
    if k == 0 then []
    else Kept(Run(st, mails, sizes, k - 1), KeptAfter(st, mails, sizes, k - 1), mails[k - 1], sizes[k - 1])
  }

  /** Over every run from the zero state: the buffer up to `rxframeoffset` holds the consecutively
      numbered fragments of one frame that were accepted, and no more than the frame announced. */
  lemma {:induction false} RunsHold(st: State, mails: seq<Mail>, sizes: seq<int>, k: nat)
    requires k <= |mails| && Readings(mails, sizes, |st.buf|) && st == Reset(st)
    ensures Holding(Run(st, mails, sizes, k), KeptAfter(st, mails, sizes, k))
  {
    hide Holding, Kept, Read;
    if k == 0 {
      NothingHeld(st);
    } else {
      RunsHold(st, mails, sizes, k - 1);
      ReadKeepsHolding(Run(st, mails, sizes, k - 1), KeptAfter(st, mails, sizes, k - 1), mails[k - 1], sizes[k - 1]);
    }
  }

  /** Whatever frame is delivered in such a run is what its fragments carry. */
  lemma {:induction false} RunsDeliver(st: State, mails: seq<Mail>, sizes: seq<int>, k: nat)
    requires k < |mails| && Readings(mails, sizes, |st.buf|) && st == Reset(st)
    ensures var before := Run(st, mails, sizes, k); var r := Read(before, mails[k], sizes[k]);
            r.wkc == 1 ==>
              Delivers(r, mails[k], Grown(before, KeptAfter(st, mails, sizes, k), mails[k], sizes[k]))
  {
    hide Holding, Kept, Read, Grown, Delivers, TimeAppended;
    RunsHold(st, mails, sizes, k);
    ReadKeepsHolding(Run(st, mails, sizes, k), KeptAfter(st, mails, sizes, k), mails[k], sizes[k]);
  }

  /** The fragments held all arrived in this run. */
  lemma {:induction false} KeptArrived(st: State, mails: seq<Mail>, sizes: seq<int>, k: nat)
    requires k <= |mails| && Readings(mails, sizes, |st.buf|)
    ensures forall m :: m in KeptAfter(st, mails, sizes, k) ==> m in mails[..k]
  {
    hide Read, Resynced, Opened, Accepts;
    if k > 0 {
      KeptArrived(st, mails, sizes, k - 1);
      assert mails[..k] == mails[..k - 1] + [mails[k - 1]];
    }
  }

  /** Nothing is written past the size that is passed, in any state. */
  lemma {:induction false} WritesWithin(st: State, m: Mail, psize: int, i: nat)
    requires DataSize(m) <= |m.data| && psize <= |st.buf| && psize <= i < |st.buf|
    ensures Read(st, m, psize).state.buf[i] == st.buf[i]
  {
    hide IsEoe, FragNo, FrameNo, OffsetField, DataSize, LastFragment, TimeAppended;
  }

  lemma {:induction false} RunsWriteWithin(st: State, mails: seq<Mail>, sizes: seq<int>, k: nat, i: nat)
    requires k <= |mails| && Readings(mails, sizes, |st.buf|) && i < |st.buf|
    requires forall j {:trigger sizes[j]} :: 0 <= j < |sizes| ==> sizes[j] <= i
    ensures Run(st, mails, sizes, k).buf[i] == st.buf[i]
  {
    hide Read;
    if k > 0 {
      RunsWriteWithin(st, mails, sizes, k - 1, i);
      WritesWithin(Run(st, mails, sizes, k - 1), mails[k - 1], sizes[k - 1], i);
    }
  }

  /** The state inside a frame, after its first `k` fragments. */
  ghost predicate Inside(st: State, mails: seq<Mail>, k: nat, frame: seq<byte>, start: nat) {
    && k <= |mails| && st.fragmentno == k && st.frameno == (start + 1) % 16
    && st.framesize == 32 * RoundUp(|frame|)
    && st.offset == OffsetOf(mails, k) && Arrived(st.buf, frame, st.offset)
  }

  /** The next fragment is expected: in any state if it is the first one. */
  lemma {:induction false} OpensFragment(st: State, mails: seq<Mail>, k: nat, frame: seq<byte>, port: nat, start: nat,
                                         maxdata: nat)
    requires Complete(mails, frame, port, start, maxdata) && |frame| <= 2016 && k < |mails|
    requires k > 0 ==> Inside(st, mails, k, frame, start)
    ensures IsEoe(mails[k]) && !TimeAppended(mails[k])
    ensures var s0 := Resynced(st, mails[k]);
            && s0.fragmentno == FragNo(mails[k]) && !Mismatch(s0, mails[k])
            && Inside(Opened(s0, mails[k]), mails, k, frame, start)
            && |Opened(s0, mails[k]).buf| == |st.buf|
  {
    hide Complete, IsFragment, IsEoe, TimeAppended, FragNo, FrameNo, OffsetField, RoundUp, Arrived;
    FitsSixBits(mails, frame, port, start, maxdata, k);
    Nth(mails, frame, port, start, maxdata, k);
    HasPort(mails[k], frame, port, start, maxdata, k, OffsetOf(mails, k));
    NothingArrived(st.buf, frame);
  }

  lemma {:induction false} NothingArrived(buf: seq<byte>, frame: seq<byte>)
    ensures Arrived(buf, frame, 0)
  {
  }

  lemma {:induction false} StoresFragment(st: State, mails: seq<Mail>, k: nat, frame: seq<byte>, port: nat, start: nat,
                                          maxdata: nat, psize: nat)
    requires Complete(mails, frame, port, start, maxdata) && |frame| <= 2016 && k < |mails|
    requires |frame| <= psize <= |st.buf| && Inside(st, mails, k, frame, start)
    ensures DataSize(mails[k]) <= |mails[k].data|
    ensures Inside(Stored(st, mails[k], psize), mails, k + 1, frame, start)
  {
    hide Complete, IsFragment, DataSize, FragNo, FrameNo, OffsetField, Arrived, Patch;
    var m, o := mails[k], OffsetOf(mails, k);
    FitsSixBits(mails, frame, port, start, maxdata, k);
    Nth(mails, frame, port, start, maxdata, k);
    CarriesData(m, frame, port, start, maxdata, k, o);
    assert m.data[..DataSize(m)] == m.data;
    ArrivesNext(st.buf, frame, o, m.data);
  }

  /** One fragment of a frame; the last one delivers it. */
  lemma {:induction false} ReadsFragment(st: State, mails: seq<Mail>, k: nat, frame: seq<byte>, port: nat, start: nat,
                                         maxdata: nat, psize: nat)
    requires Complete(mails, frame, port, start, maxdata) && |frame| <= 2016 && k < |mails|
    requires |frame| <= psize <= |st.buf| && (k > 0 ==> Inside(st, mails, k, frame, start))
    ensures DataSize(mails[k]) <= |mails[k].data|
    ensures var r := Read(st, mails[k], psize);
            && (k + 1 < |mails| ==> r.wkc == 0 && Inside(r.state, mails, k + 1, frame, start))
            && (k + 1 == |mails| ==> r == Step(Reset(r.state), |frame|, 1) && Arrived(r.state.buf, frame, |frame|))
  {
    hide Complete, IsFragment, IsEoe, DataSize, FragNo, LastFragment, TimeAppended, Arrived, Stored, Opened, Resynced,
         Mismatch, OffsetOf, RoundUp;
    var m := mails[k];
    OpensFragment(st, mails, k, frame, port, start, maxdata);
    StoresFragment(Opened(Resynced(st, m), m), mails, k, frame, port, start, maxdata, psize);
    Nth(mails, frame, port, start, maxdata, k);
    EndsAt(mails, frame, port, start, maxdata);
  }

  lemma {:induction false} RunsThrough(st: State, mails: seq<Mail>, sizes: seq<int>, k: nat, frame: seq<byte>,
                                       port: nat, start: nat, maxdata: nat, psize: nat)
    requires Complete(mails, frame, port, start, maxdata) && |frame| <= 2016 && 0 < k < |mails|
    requires Readings(mails, sizes, |st.buf|) && Constant(sizes, psize)
    requires |frame| <= psize <= |st.buf|
    ensures Inside(Run(st, mails, sizes, k), mails, k, frame, start)
  {
    hide Complete, Inside, Read;
    if k > 1 {
      RunsThrough(st, mails, sizes, k - 1, frame, port, start, maxdata, psize);
    }
    ReadsFragment(Run(st, mails, sizes, k - 1), mails, k - 1, frame, port, start, maxdata, psize);
  }

  ghost predicate Constant(sizes: seq<int>, psize: nat) {
    forall k {:trigger sizes[k]} :: 0 <= k < |sizes| ==> sizes[k] == psize
  }

  /** Never more than the buffer takes, nor than the 6-bit size field can announce. */
  ghost predicate Bounded(st: State, psize: nat) {
    st.offset <= st.framesize <= 2016 && st.offset <= psize
  }

  lemma {:induction false} StaysBounded(st: State, m: Mail, psize: nat)
    requires DataSize(m) <= |m.data| && psize <= |st.buf|
    requires Bounded(st, psize) || (IsEoe(m) && FragNo(m) == 0)
    ensures var r := Read(st, m, psize);
            && Bounded(r.state, psize)
            && (r.wkc == 1 && !TimeAppended(m) ==> r.psize <= 2016 && r.psize <= psize)
  {
    hide IsEoe, FragNo, FrameNo, OffsetField, DataSize, LastFragment, TimeAppended, Stored, Mismatch;
    FragNoIsSmall(m);
    DataSizeIsSmall(m);
    StoresWithin(Opened(Resynced(st, m), m), m, psize);
  }

  lemma {:induction false} DataSizeIsSmall(m: Mail)
    ensures DataSize(m) < 65536
  {
  }

  lemma {:induction false} StoresWithin(st: State, m: Mail, psize: nat)
    requires DataSize(m) <= |m.data| && psize <= |st.buf|
    ensures Bounded(st, psize) ==> Bounded(Stored(st, m, psize), psize)
  {
    hide DataSize, Patch;
  }

  lemma {:induction false} RunsBounded(st: State, mails: seq<Mail>, sizes: seq<int>, k: nat, frame: seq<byte>,
                                       port: nat, start: nat, maxdata: nat, psize: nat)
    requires Complete(mails, frame, port, start, maxdata) && 0 < k <= |mails|
    requires Readings(mails, sizes, |st.buf|) && Constant(sizes, psize) && psize <= |st.buf|
    ensures Bounded(Run(st, mails, sizes, k), psize)
  {
    hide Complete, Bounded, Read, IsFragment;
    if k > 1 {
      RunsBounded(st, mails, sizes, k - 1, frame, port, start, maxdata, psize);
    } else {
      StartsWithZero(mails, frame, port, start, maxdata);
    }
    StaysBounded(Run(st, mails, sizes, k - 1), mails[k - 1], psize);
  }

  lemma {:induction false} StartsWithZero(mails: seq<Mail>, frame: seq<byte>, port: nat, start: nat, maxdata: nat)
    requires Complete(mails, frame, port, start, maxdata)
    ensures mails != [] && IsEoe(mails[0]) && FragNo(mails[0]) == 0
  {
    hide IsEoe;
    assert FragmentAt(mails, frame, port, start, maxdata, 0);
  }

  /** What the last of some messages brings about. */
  ghost function LastRead(st: State, mails: seq<Mail>, sizes: seq<int>): Step
    requires mails != [] && Readings(mails, sizes, |st.buf|)
  {
    Read(Run(st, mails, sizes, |mails| - 1), mails[|mails| - 1], sizes[|mails| - 1])
  }

  /** A frame is reported complete, with its size and its bytes, and the counters are reset. */
  ghost predicate IsDelivery(r: Step, frame: seq<byte>) {
    r.wkc == 1 && r.psize == |frame| && |frame| <= |r.state.buf| && r.state.buf[..|frame|] == frame
      && r.state == Reset(r.state)
  }

  /** From any state whatever, the fragments of one frame deliver exactly this frame, with all counters
      reset, if and only if it has at most 2016 bytes and fits the buffer. */
  lemma {:induction false} DeliversFrame(st: State, mails: seq<Mail>, sizes: seq<int>, frame: seq<byte>, port: nat,
                                         start: nat, maxdata: nat, psize: nat)
    requires Complete(mails, frame, port, start, maxdata)
    requires Readings(mails, sizes, |st.buf|) && Constant(sizes, psize) && psize <= |st.buf|
    ensures mails != []
    ensures |frame| <= 2016 && |frame| <= psize <==> IsDelivery(LastRead(st, mails, sizes), frame)
  {
    hide IsFragment, Fragments, Read, Run, TimeAppended, Inside, Bounded;
    var last := |mails| - 1;
    var before := Run(st, mails, sizes, last);
    Nth(mails, frame, port, start, maxdata, last);
    HasPort(mails[last], frame, port, start, maxdata, last, OffsetOf(mails, last));
    if |frame| <= 2016 && |frame| <= psize {
      if last > 0 {
        RunsThrough(st, mails, sizes, last, frame, port, start, maxdata, psize);
      }
      ReadsFragment(before, mails, last, frame, port, start, maxdata, psize);
    } else {
      if last > 0 {
        RunsBounded(st, mails, sizes, last, frame, port, start, maxdata, psize);
      } else {
        StartsWithZero(mails, frame, port, start, maxdata);
      }
      StaysBounded(before, mails[last], psize);
    }
  }

  /** For example, two messages with a frame of 2017 bytes: 64 blocks of 32 bytes do not fit the six bits of
      the size, so that a size of 0 is announced and the second message is refused. */
  const LONG_FRAME: seq<byte> := seq(2017, i => 0)
  const LONG_MAILS := [Mail(EOE_TYPE, 2020, Info1(false, 0), Info2(0, 64, 1), LONG_FRAME[..2016]),
                       Mail(EOE_TYPE, 5, Info1(true, 0), Info2(1, 63, 1), LONG_FRAME[2016..])]

  lemma {:induction false} LongFragments()
    ensures IsFragment(LONG_MAILS[0], LONG_FRAME, 0, 0, 2016, 0, 0) && !LastFragment(LONG_MAILS[0])
    ensures IsFragment(LONG_MAILS[1], LONG_FRAME, 0, 0, 2016, 1, 2016) && LastFragment(LONG_MAILS[1])
    ensures OffsetOf(LONG_MAILS, 1) == 2016 && OffsetOf(LONG_MAILS, 2) == 2017
  {
    hide Info1, Info2;
  }

  lemma {:induction false} LongIsComplete()
    ensures Complete(LONG_MAILS, LONG_FRAME, 0, 0, 2016)
  {
    hide IsFragment, LastFragment, OffsetOf, Info1, Info2;
    LongFragments();
    assert OffsetOf(LONG_MAILS, 0) == 0 by { NothingBefore(LONG_MAILS); }
    forall k | 0 <= k < 2 ensures FragmentAt(LONG_MAILS, LONG_FRAME, 0, 0, 2016, k) {
      assert k == 0 || k == 1;
    }
  }

  lemma {:induction false} NothingBefore(mails: seq<Mail>)
    ensures OffsetOf(mails, 0) == 0
  {
  }

  lemma {:induction false} LongFrameIsRefused(buf: seq<byte>)
    requires |buf| >= 2017
    ensures Complete(LONG_MAILS, LONG_FRAME, 0, 0, 2016) && Readings(LONG_MAILS, [|buf|, |buf|], |buf|)
    ensures LastRead(State(0, 0, 0, 0, buf), LONG_MAILS, [|buf|, |buf|]).wkc == INVALID_RX_DATA
  {
    hide Info1, Info2, Complete;
    LongIsComplete();
    var st, sizes := State(0, 0, 0, 0, buf), [|buf|, |buf|];
    assert Run(st, LONG_MAILS, sizes, 0) == st;
    assert Run(st, LONG_MAILS, sizes, 1).fragmentno == 0;
  }
}
