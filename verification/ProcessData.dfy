/** Exchanging the process image with the slaves, segment by segment
    (ecx_main_send_processdata, ecx_receive_processdata_group). */
module ProcessData {
  import opened Memory
  import opened Numbers
  import opened Wire
  import Segments

  const MAXBUF := 16
  const NOFRAME := -1

  /** A frame: one process-data datagram, and in the first frame of a cycle possibly a second
      datagram that distributes the clock. */
  datatype Frame = Frame(gram: Datagram, clock: Option<Datagram>)

  /** The working counter at the very end of a frame, which is what waiting for the frame returns. */
  function LastCounter(f: Frame): nat {
    if f.clock.Some? then f.clock.value.wkc else f.gram.wkc
  }

  /** A system time. */
  type Time = t: seq<byte> | |t| == 8 witness [0, 0, 0, 0, 0, 0, 0, 0]

  /** The bus in one cycle: its slaves, the system times of those that have a clock, by station address, the
      working counter of a datagram that reads one of them, and which of the frames sent come back in time. */
  datatype Bus = Bus(slaves: seq<Slave>, clocks: map<word, Time>, clockCounter: word, arrives: nat -> bool)

  /** What becomes of a datagram that is to be read from one slave: the lower word of its address is the
      station address of that slave, the upper one a register. A slave with a clock has its system time in
      the eight bytes from 0x0910 on; no other slave answers. */
  function ClockReply(d: Datagram, bus: Bus): (r: Datagram)
    ensures |r.data| == |d.data|
  {
    var station, register := d.addr % 65536, d.addr / 65536;
    if register == 0x0910 && |d.data| == 8 && station in bus.clocks then
      d.(data := bus.clocks[station], wkc := bus.clockCounter)
    else d
  }

  function Reply(f: Frame, bus: Bus): Frame {
    Frame(Return(f.gram, bus.slaves), if f.clock.Some? then Some(ClockReply(f.clock.value, bus)) else None)
  }

  /** The time of the slave with a station address, or `time` if there is none. */
  function TimeOf(bus: Bus, slave: word, time: Time): Time {
    if slave in bus.clocks then bus.clocks[slave] else time
  }

  /** What is in the receive buffer of the k-th frame. */
  function Arriving(f: Frame, k: nat, bus: Bus): Option<Frame> {
    if bus.arrives(k) then Some(Reply(f, bus)) else None
  }

  /** The parts of the group record that the exchange uses, with the station address of the slave whose clock
      is distributed, and whether the image is overlapped. */
  datatype Group = Group(logstartaddr: nat, obytes: nat, ibytes: nat, blockLRW: nat, hasdc: bool, clockSlave: word,
                         nsegments: nat, isegment: nat, ioffset: nat, iosegment: seq<nat>, overlap: bool)

  /** The bytes of the logical image. */
  function Length(g: Group): nat {
    if g.overlap then Max(g.obytes, g.ibytes) else g.obytes + g.ibytes
  }

  /** How far behind the outputs in the IOmap the replies of LRW are stored. */
  function Shift(g: Group): nat {
    if g.overlap && g.blockLRW == 0 then g.obytes else 0
  }

  /** The logical address whose reply belongs to the first byte of the IOmap. */
  function Home(g: Group): int { g.logstartaddr - Shift(g) }

  /** The first `k` segments together. */
  function Upto(g: Group, k: nat): nat
    requires k <= |g.iosegment|
  {
    Segments.Total(g.iosegment[..k])
  }

  /** The segments are those of a mapper: they sum to the image. */
  ghost predicate ValidSegments(g: Group) {
    0 < g.nsegments <= |g.iosegment| && Upto(g, g.nsegments) == Length(g)
  }

  /** In an image that is not overlapped, the outputs end `ioffset` bytes into segment `isegment`. */
  ghost predicate ValidGroup(g: Group) {
    && !g.overlap && ValidSegments(g) && g.isegment < g.nsegments
    && Upto(g, g.isegment) + g.ioffset == g.obytes && g.ioffset <= g.iosegment[g.isegment]
  }

  function Clamp(x: nat, lo: nat, hi: nat): nat {
    if x < lo then lo else if x > hi then hi else x
  }

  /** Datagram `k` carries the part of segment `first + k` that lies between `lo` and `hi`. */
  ghost predicate CarriesSegment(d: Datagram, c: Command, g: Group, k: nat, lo: nat, hi: nat)
    requires k < |g.iosegment| && lo <= hi
  {
    && d.command == c && d.wkc == 0
    && d.addr == g.logstartaddr + Clamp(Upto(g, k), lo, hi)
    && d.addr + |d.data| == g.logstartaddr + Clamp(Upto(g, k + 1), lo, hi)
  }

  /** What an address of the image looks like in a datagram that is sent. */
  predicate SentFrom(d: Datagram, image: seq<byte>, base: nat) {
    && base <= d.addr && d.addr - base + |d.data| <= |image|
    && d.data == if d.command.LRD? then seq(|d.data|, _ => 0) else image[d.addr - base..d.addr - base + |d.data|]
  }

  /** A complete transfer of the bytes from `lo` to `hi`: datagrams for the segments from `first` on. */
  ghost predicate Transfer(sent: seq<Datagram>, c: Command, g: Group, first: nat, lo: nat, hi: nat, image: seq<byte>) {
    && lo <= hi && first + |sent| <= |g.iosegment|
    && (forall k :: 0 <= k < |sent| ==>
          CarriesSegment(sent[k], c, g, first + k, lo, hi) && SentFrom(sent[k], image, g.logstartaddr))
    && Tiles(sent, g.logstartaddr + lo,
             g.logstartaddr + (if sent == [] then lo else Clamp(Upto(g, first + |sent|), lo, hi)))
  }

  lemma {:induction false} UptoStep(g: Group, k: nat)
    requires k < |g.iosegment|
    ensures Upto(g, k + 1) == Upto(g, k) + g.iosegment[k]
  {
    assert g.iosegment[..k + 1] == g.iosegment[..k] + [g.iosegment[k]];
    Segments.TotalOneMore(g.iosegment[..k], g.iosegment[k]);
  }

  lemma {:induction false} UptoGrows(g: Group, j: nat, k: nat)
    requires j <= k <= |g.iosegment|
    ensures Upto(g, j) <= Upto(g, k)
  {
    Segments.TotalOfPrefix(g.iosegment, j, k);
  }

  /** The bytes of the segments from `isegment` on that come before the `k`-th of them, without the
      `ioffset` bytes of outputs at the start. */
  function Skipped(g: Group, k: nat): int
    requires g.isegment + k <= |g.iosegment|
  {
    if k == 0 then 0 else Upto(g, g.isegment + k) - Upto(g, g.isegment) - g.ioffset
  }

  lemma {:induction false} SkippedStep(g: Group, k: nat)
    requires g.isegment + k < |g.iosegment|
    ensures Skipped(g, k + 1) == Skipped(g, k) + g.iosegment[g.isegment + k] - (if k == 0 then g.ioffset else 0)
  {
    UptoStep(g, g.isegment + k);
    hide Upto;
  }

  /** Segments that hold at least `ioffset` bytes at the start do not go back. */
  lemma {:induction false} SkippedGrows(g: Group, k: nat)
    requires g.isegment + k < |g.iosegment| && g.ioffset <= g.iosegment[g.isegment]
    ensures 0 <= Skipped(g, k) <= Skipped(g, k + 1)
    decreases k
  {
    hide Skipped;
    SkippedStep(g, k);
    if k > 0 {
      SkippedGrows(g, k - 1);
    } else {
      assert Skipped(g, 0) == 0 by { NothingSkipped(g); }
    }
  }

  lemma {:induction false} NothingSkipped(g: Group)
    requires g.isegment <= |g.iosegment|
    ensures Skipped(g, 0) == 0
  {
  }

  /** The part of segment `k` that holds inputs. */
  lemma {:induction false} InputPart(g: Group, k: nat)
    requires ValidGroup(g) && g.isegment + k <= g.nsegments
    ensures var lo, hi := g.obytes, g.obytes + g.ibytes;
            && g.obytes + Skipped(g, k) == Clamp(Upto(g, g.isegment + k), lo, hi)
            && (g.isegment + k == g.nsegments ==> Skipped(g, k) == g.ibytes)
  {
    UptoGrows(g, g.isegment + k, g.nsegments);
    if k > 0 {
      UptoStep(g, g.isegment);
      UptoGrows(g, g.isegment + 1, g.isegment + k);
    }
  }

  /** The part of segment `k` that holds outputs, which end with segment `last`. */
  lemma {:induction false} OutputPart(g: Group, k: nat, last: nat)
    requires k < last <= |g.iosegment| && Upto(g, last) >= g.obytes
    ensures var at := Clamp(Upto(g, k), 0, g.obytes);
            && at + Min(g.iosegment[k], g.obytes - at) == Clamp(Upto(g, k + 1), 0, g.obytes)
            && (k + 1 == last ==> Clamp(Upto(g, k + 1), 0, g.obytes) == g.obytes)
  {
    UptoStep(g, k);
  }

  /** Before the first segment. */
  lemma {:induction false} StartOfImage(g: Group, hi: nat)
    requires ValidSegments(g)
    ensures 0 < g.nsegments <= |g.iosegment| && Upto(g, 0) == Clamp(Upto(g, 0), 0, hi) == 0
  {
    assert g.iosegment[..0] == [];
  }

  /** A whole segment. */
  lemma {:induction false} ImagePart(g: Group, k: nat)
    requires ValidSegments(g) && k < g.nsegments
    ensures var hi := Length(g);
            && g.nsegments <= |g.iosegment|
            && Clamp(Upto(g, k), 0, hi) + g.iosegment[k] == Clamp(Upto(g, k + 1), 0, hi) <= hi
            && (k + 1 == g.nsegments ==> Clamp(Upto(g, k + 1), 0, hi) == hi)
  {
    UptoStep(g, k);
    UptoGrows(g, k + 1, g.nsegments);
  }

  /** One more datagram continues a transfer. */
  lemma {:induction false} TransferStep(sent: seq<Datagram>, d: Datagram, c: Command, g: Group, first: nat, lo: nat,
                                        hi: nat, image: seq<byte>)
    requires Transfer(sent, c, g, first, lo, hi, image) && first + |sent| < |g.iosegment|
    requires Upto(g, first) <= lo
    requires CarriesSegment(d, c, g, first + |sent|, lo, hi) && SentFrom(d, image, g.logstartaddr)
    ensures Transfer(sent + [d], c, g, first, lo, hi, image)
  {
    hide Upto, SentFrom, Tiles;
    var more := sent + [d];
    TilesStep(sent, d, g.logstartaddr + lo);
    hide CarriesSegment, Clamp;
    forall k | 0 <= k < |more|
      ensures CarriesSegment(more[k], c, g, first + k, lo, hi) && SentFrom(more[k], image, g.logstartaddr)
    {
      if k < |sent| {
        assert more[k] == sent[k];
      }
    }
  }

  /** The datagrams that read the inputs: one per segment from `isegment` on, from the address of the
      inputs in a sequential image. */
  ghost predicate IsInputGram(d: Datagram, g: Group, k: nat, image: seq<byte>)
    requires g.isegment + k < |g.iosegment|
  {
    && d.command == LRD && d.wkc == 0 && SentFrom(d, image, g.logstartaddr)
    && d.addr == g.logstartaddr + g.obytes + Skipped(g, k)
    && d.addr + |d.data| == g.logstartaddr + g.obytes + Skipped(g, k + 1)
  }

  ghost predicate InputGrams(mine: seq<Datagram>, g: Group, image: seq<byte>) {
    && g.isegment + |mine| <= |g.iosegment|
    && (forall k {:trigger mine[k]} :: 0 <= k < |mine| ==> IsInputGram(mine[k], g, k, image))
    && g.obytes + Skipped(g, |mine|) >= 0
    && Tiles(mine, g.logstartaddr + g.obytes, g.logstartaddr + g.obytes + Skipped(g, |mine|))
  }

  /** Reading goes on until exactly the inputs have been read, or there are no more segments. */
  ghost predicate StopsAtEnd(mine: seq<Datagram>, g: Group) {
    && mine != [] && g.isegment + |mine| <= g.nsegments <= |g.iosegment|
    && (Skipped(g, |mine|) == g.ibytes || g.isegment + |mine| == g.nsegments)
    && forall k {:trigger Skipped(g, k)} :: 0 < k < |mine| ==> Skipped(g, k) != g.ibytes
  }

  lemma {:induction false} InputGramsStep(mine: seq<Datagram>, d: Datagram, g: Group, image: seq<byte>)
    requires InputGrams(mine, g, image) && g.isegment + |mine| < |g.iosegment| && IsInputGram(d, g, |mine|, image)
    ensures InputGrams(mine + [d], g, image)
  {
    hide Skipped, SentFrom;
    var more := mine + [d];
    assert more[..|more| - 1] == mine;
    TilesGrow(mine, g.logstartaddr + g.obytes, d.addr);
  }

  lemma {:induction false} SkippedBound(g: Group, k: nat)
    requires g.isegment < g.nsegments <= |g.iosegment| && g.ioffset <= g.iosegment[g.isegment]
             && g.isegment + k <= g.nsegments
    ensures Skipped(g, k) <= Skipped(g, g.nsegments - g.isegment)
    decreases g.nsegments - k
  {
    hide Skipped;
    if g.isegment + k < g.nsegments {
      SkippedGrows(g, k);
      SkippedBound(g, k + 1);
    }
  }

  const ECT_REG_DCSYSTIME := 0x0910

  /** The datagram that distributes the clock: the system time register of a slave, with the time known so
      far. */
  function ClockGram(slave: word, time: Time): Datagram {
    Datagram(FRMW, slave + 65536 * ECT_REG_DCSYSTIME, time, 0)
  }

  /** Where the clock is in the first frame when it comes back, behind process data of `length` bytes: there
      is a header of twelve bytes before the data, and behind them a counter and another header of ten. */
  function ClockOffset(length: nat): nat { 12 + length + 2 + 10 }

  /** The k-th frame of a cycle; the first one distributes the clock. */
  function FrameFor(d: Datagram, k: nat, g: Group, time: Time): Frame {
    Frame(d, if k == 0 && g.hasdc then Some(ClockGram(g.clockSlave, time)) else None)
  }

  /** A datagram that is read from one slave and written to the others, the slave with the station address in
      the lower word of its address, at the register of the system time. */
  predicate AsksForTime(d: Datagram, slave: word, time: Time) {
    d.command == FRMW && d.addr % 65536 == slave && d.addr / 65536 == 0x0910 && d.data == time && d.wkc == 0
  }

  /** What comes back of it. */
  function Answer(d: Datagram, k: nat, g: Group, time: Time, bus: Bus): Option<Frame> {
    Arriving(FrameFor(d, k, g, time), k, bus)
  }

  lemma {:induction false} ClockAsks(slave: word, time: Time)
    ensures AsksForTime(ClockGram(slave, time), slave, time)
  {
  }

  /** The clock datagram brings back the time of the slave whose station address it has. */
  lemma {:induction false} ClockAnswers(slave: word, time: Time, bus: Bus)
    ensures ClockReply(ClockGram(slave, time), bus).data == TimeOf(bus, slave, time)
  {
  }

  lemma {:induction false} FreeIndex(used: set<nat>)
    requires |used| < MAXBUF
    ensures exists i :: 0 <= i < MAXBUF && i !in used
  {
    if forall i :: 0 <= i < MAXBUF ==> i in used {
      SubsetSize(FirstNumbers(MAXBUF), used);
    }
  }

  ghost function FirstNumbers(n: nat): (s: set<nat>)
    ensures |s| == n && forall i: nat :: i in s <==> i < n
  {
    if n == 0 then {} else FirstNumbers(n - 1) + {n - 1}
  }

  lemma {:induction false} SubsetSize(a: set<nat>, b: set<nat>)
    requires a <= b
    ensures |a| <= |b|
  {
    if a != {} {
      var x :| x in a;
      SubsetSize(a - {x}, b - {x});
    }
  }

  /** A stack entry: buffer `i` is for the reply to the k-th datagram `d`, whose `len` bytes belong to
      the IOmap from `offset` on. */
  ghost predicate IsEntry(i: nat, offset: nat, len: nat, rx: map<nat, Option<Frame>>, d: Datagram, k: nat, g: Group,
                          time: Time, bus: Bus) {
    && i in rx && rx[i] == Answer(d, k, g, time, bus)
    && d.addr == Home(g) + offset && |d.data| == len
  }

  /** The stack has an entry for every datagram sent. */
  ghost predicate Entries(idx: seq<nat>, data: seq<nat>, length: seq<nat>, rx: map<nat, Option<Frame>>,
                          sent: seq<Datagram>, g: Group, time: Time, bus: Bus) {
    && |sent| <= MAXBUF == |idx| == |data| == |length|
    && forall k {:trigger sent[k]} :: 0 <= k < |sent| ==>
         IsEntry(idx[k], data[k], length[k], rx, sent[k], k, g, time, bus)
  }

  lemma {:induction false} EntriesStep(idx: seq<nat>, data: seq<nat>, length: seq<nat>, rx: map<nat, Option<Frame>>,
                                       sent: seq<Datagram>, i: nat, offset: nat, len: nat, d: Datagram, g: Group,
                                       time: Time, bus: Bus)
    requires Entries(idx, data, length, rx, sent, g, time, bus) && |sent| < MAXBUF && i !in rx
    requires d.addr == Home(g) + offset && |d.data| == len
    ensures var n := |sent|;
            Entries(idx[n := i], data[n := offset], length[n := len], rx[i := Answer(d, n, g, time, bus)],
                    sent + [d], g, time, bus)
  {
    hide Answer;
    var n := |sent|;
    var idx1, data1, length1 := idx[n := i], data[n := offset], length[n := len];
    var rx1 := rx[i := Answer(d, n, g, time, bus)];
    forall k | 0 <= k <= n ensures IsEntry(idx1[k], data1[k], length1[k], rx1, (sent + [d])[k], k, g, time, bus) {
      if k < n {
        assert IsEntry(idx[k], data[k], length[k], rx, sent[k], k, g, time, bus);
      }
    }
  }

  /** The master's state in one cycle: the IOmap, the index stack that remembers which part of the
      IOmap each frame belongs to, and the receive buffers. */
  class Master {
    const iomap: array<byte>
    const idx: array<nat>
    const data: array<nat>
    const length: array<nat>
    var pushed: nat
    var pulled: nat
    var rx: map<nat, Option<Frame>>
    var DCl: nat
    var DCtO: nat
    var DCtime: Time
    ghost var sent: seq<Datagram>
    /** The time in the clock datagram of this cycle. */
    ghost var stamp: Time

    constructor (iomap: array<byte>)
      ensures this.iomap == iomap && Valid() && fresh(idx) && fresh(data) && fresh(length)
      ensures pushed == pulled == 0 && rx == map[] && sent == []
    {
      this.iomap := iomap;
      idx := new nat[MAXBUF](_ => 0);
      data := new nat[MAXBUF](_ => 0);
      length := new nat[MAXBUF](_ => 0);
      pushed, pulled, rx, DCl, DCtO, DCtime, sent := 0, 0, map[], 0, 0, [0, 0, 0, 0, 0, 0, 0, 0], [];
      stamp := [0, 0, 0, 0, 0, 0, 0, 0];
    }

    ghost predicate Valid()
      reads this
    {
      && idx.Length == data.Length == length.Length == MAXBUF
      && idx != data && idx != length && data != length
      && (iomap as object) != idx && (iomap as object) != data && (iomap as object) != length
      && pulled <= pushed <= MAXBUF
    }

    /** Entry `k` of the stack belongs to the k-th datagram sent. */
    ghost predicate Queued(g: Group, bus: Bus)
      reads this, idx, data, length
    {
      && Valid() && pushed == |sent| && |rx| == pushed
      && Entries(idx[..], data[..], length[..], rx, sent, g, stamp, bus)
      && (g.hasdc && pushed > 0 ==> DCl == |sent[0].data| && DCtO == ClockOffset(DCl))
    }

    /** ecx_pushindex: an entry is only stored while there is room. */
    method PushIndex(i: nat, offset: nat, len: nat)
      requires Valid()
      modifies this`pushed, idx, data, length
      ensures Valid()
      ensures old(pushed) == MAXBUF ==> pushed == MAXBUF && unchanged(idx) && unchanged(data) && unchanged(length)
      ensures old(pushed) < MAXBUF ==>
                && pushed == old(pushed) + 1
                && idx[..] == old(idx[..])[old(pushed) := i]
                && data[..] == old(data[..])[old(pushed) := offset]
                && length[..] == old(length[..])[old(pushed) := len]
    {
      if pushed < MAXBUF {
        idx[pushed] := i;
        data[pushed] := offset;
        length[pushed] := len;
        pushed := pushed + 1;
      }
    }

    /** ecx_pullindex: the next entry of the stack, or -1. */
    method PullIndex() returns (pos: int)
      requires Valid()
      modifies this`pulled
      ensures Valid()
      ensures old(pulled) < pushed ==> pos == old(pulled) && pulled == old(pulled) + 1
      ensures old(pulled) == pushed ==> pos == -1 && pulled == old(pulled)
    {
      pos := -1;
      if pulled < pushed {
        pos := pulled;
        pulled := pulled + 1;
      }
    }

    lemma {:induction false} PushedAll(g: Group, bus: Bus)
      requires Queued(g, bus)
      ensures pushed == |sent|
    {
    }

    /** Send a frame and push the place for its reply. The bus puts the reply into the receive buffer of the
        same index. */
    method Enqueue(frame: Frame, place: nat, g: Group, bus: Bus)
      requires Queued(g, bus) && pushed < MAXBUF && frame == FrameFor(frame.gram, pushed, g, stamp)
      requires frame.gram.addr == Home(g) + place
      requires g.hasdc && pushed == 0 ==> DCl == |frame.gram.data| && DCtO == ClockOffset(DCl)
      modifies this`rx, this`pushed, this`sent, idx, data, length
      ensures Queued(g, bus) && sent == old(sent) + [frame.gram]
    {
      hide Arriving, ClockOffset, Home, FrameFor;
      FreeIndex(rx.Keys);
      var i :| 0 <= i < MAXBUF && i !in rx;
      var d, n := frame.gram, pushed;
      rx := rx[i := Arriving(frame, n, bus)];
      PushIndex(i, place, |d.data|);
      sent := sent + [d];
      EntriesStep(old(idx[..]), old(data[..]), old(length[..]), old(rx), old(sent), i, place, |d.data|, d, g, stamp,
                  bus);
    }

    /** Build the frame for one segment, whose data are at `offset` in the IOmap, and send it; its reply is to
        be put at `place`. */
    method Transmit(c: Command, addr: nat, offset: nat, place: nat, len: nat, first: bool, g: Group, bus: Bus)
      returns (ghost d: Datagram, ghost frame: Frame)
      requires Queued(g, bus) && pulled == 0 && pushed < MAXBUF && !c.FRMW?
      requires offset + len <= iomap.Length && addr == g.logstartaddr + offset == Home(g) + place
      requires first <==> g.hasdc && pushed == 0
      requires stamp == DCtime
      modifies this, idx, data, length
      ensures Queued(g, bus) && pulled == 0 && stamp == DCtime == old(DCtime)
      ensures sent == old(sent) + [d] && d.command == c && d.addr == addr && |d.data| == len && d.wkc == 0
      ensures SentFrom(d, iomap[..], g.logstartaddr)
      ensures frame == FrameFor(d, old(pushed), g, DCtime) && (first ==> DCl == len && DCtO == ClockOffset(len))
      ensures if first then frame.clock.Some? && AsksForTime(frame.clock.value, g.clockSlave, DCtime)
              else frame.clock.None?
    {
      hide ClockOffset, ClockGram, Entries;
      var payload: seq<byte> := if c.LRD? then seq(len, _ => 0) else iomap[offset..offset + len];
      var out := Frame(Datagram(c, addr, payload, 0), None);
      if first {
        DCl, DCtO := len, ClockOffset(len);
        out := out.(clock := Some(ClockGram(g.clockSlave, DCtime)));
        ClockAsks(g.clockSlave, DCtime);
      }
      d, frame := out.gram, out;
      assert iomap[..][offset..offset + len] == iomap[offset..offset + len];
      Enqueue(out, place, g, bus);
    }

    /** Segment `k` of a transfer: its part between `lo` and `hi` goes out as one datagram. */
    method SendSegment(c: Command, g: Group, bus: Bus, k: nat, addr: nat, offset: nat, len: nat, first: bool,
                       ghost before: seq<Datagram>, ghost mine: seq<Datagram>, ghost base: nat, ghost lo: nat,
                       ghost hi: nat)
      returns (ghost more: seq<Datagram>)
      requires Queued(g, bus) && pulled == 0 && pushed < MAXBUF && !c.FRMW? && sent == before + mine
      requires first <==> g.hasdc && pushed == 0
      requires Transfer(mine, c, g, base, lo, hi, iomap[..]) && base + |mine| == k < |g.iosegment|
      requires Upto(g, base) <= lo <= hi <= iomap.Length
      requires offset == Clamp(Upto(g, k), lo, hi) && offset + len == Clamp(Upto(g, k + 1), lo, hi)
      requires addr == g.logstartaddr + offset
      requires stamp == DCtime
      modifies this, idx, data, length
      ensures Queued(g, bus) && pulled == 0 && stamp == DCtime == old(DCtime) && pushed == old(pushed) + 1
      ensures sent == before + more && |more| == |mine| + 1
      ensures Transfer(more, c, g, base, lo, hi, iomap[..])
    {
      hide Upto, Transfer, SentFrom, IsEntry;
      ghost var d, frame := Transmit(c, addr, offset, offset + Shift(g), len, first, g, bus);
      TransferStep(mine, d, c, g, base, lo, hi, iomap[..]);
      more := mine + [d];
      assert before + mine + [d] == before + more;
    }

    /** A transfer that has reached its end. */
    ghost predicate Complete(mine: seq<Datagram>, c: Command, g: Group, base: nat, lo: nat, hi: nat)
      reads iomap
    {
      && Transfer(mine, c, g, base, lo, hi, iomap[..])
      && Tiles(mine, g.logstartaddr + lo, g.logstartaddr + hi)
      && Upto(g, base) <= lo && (mine != [] ==> Upto(g, base + |mine|) >= hi)
    }

    /** Reading the inputs (LRD): the first segment may start with outputs, which are left out. */
    method SendInputs(g: Group, bus: Bus) returns (ghost mine: seq<Datagram>)
      requires g.isegment < g.nsegments <= |g.iosegment| && g.ioffset <= g.iosegment[g.isegment]
      requires g.obytes + Skipped(g, g.nsegments - g.isegment) <= iomap.Length && Shift(g) == 0
      requires Queued(g, bus) && pulled == pushed == 0 && sent == [] && g.nsegments - g.isegment <= MAXBUF
      requires stamp == DCtime
      modifies this, idx, data, length
      ensures Queued(g, bus) && pulled == 0 && stamp == DCtime == old(DCtime)
      ensures sent == mine && InputGrams(mine, g, iomap[..]) && StopsAtEnd(mine, g)
    {
      hide Skipped, SentFrom, IsEntry, Queued;
      NothingSkipped(g);
      var currentsegment, offset, remaining: int, logAdr := g.isegment, g.obytes, g.ibytes, g.logstartaddr + g.obytes;
      var first := g.hasdc;
      mine := [];
      var more := true;
      while more
        modifies this, idx, data, length
        invariant Queued(g, bus) && pulled == 0 && stamp == DCtime == old(DCtime) && pushed == |mine| && sent == mine
        invariant first <==> g.hasdc && pushed == 0
        invariant g.isegment <= currentsegment <= g.nsegments && currentsegment == g.isegment + |mine|
        invariant InputGrams(mine, g, iomap[..])
        invariant offset == g.obytes + Skipped(g, |mine|) && remaining == g.ibytes - Skipped(g, |mine|)
        invariant logAdr == g.logstartaddr + offset
        invariant more ==> currentsegment < g.nsegments && forall k {:trigger Skipped(g, k)} :: 0 < k <= |mine| ==>
                    Skipped(g, k) != g.ibytes
        invariant !more ==> StopsAtEnd(mine, g)
        decreases g.nsegments - currentsegment, more
      {
        SkippedStep(g, |mine|);
        SkippedGrows(g, |mine|);
        var sublength := if currentsegment == g.isegment then g.iosegment[currentsegment] - g.ioffset
                         else g.iosegment[currentsegment];
        SkippedBound(g, |mine| + 1);
        ghost var d, frame := Transmit(LRD, logAdr, offset, offset, sublength, first, g, bus);
        PushedAll(g, bus);
        InputGramsStep(mine, d, g, iomap[..]);
        mine := mine + [d];
        currentsegment, first := currentsegment + 1, false;
        remaining, logAdr, offset := remaining - sublength, logAdr + sublength, offset + sublength;
        more := remaining != 0 && currentsegment < g.nsegments;
      }
    }

    /** Writing all outputs (LWR), which end with segment `last`: that one may go on with inputs, which are
        left out. */
    method SendOutputs(g: Group, bus: Bus, ghost before: seq<Datagram>, ghost last: nat)
      returns (ghost mine: seq<Datagram>)
      requires 0 < g.obytes <= iomap.Length && 0 < last <= g.nsegments <= |g.iosegment| && Upto(g, last) >= g.obytes
      requires Queued(g, bus) && pulled == 0 && sent == before && pushed + last <= MAXBUF && Shift(g) == 0
      requires stamp == DCtime
      modifies this, idx, data, length
      ensures Queued(g, bus) && pulled == 0 && stamp == DCtime == old(DCtime)
      ensures sent == before + mine && mine != []
      ensures Complete(mine, LWR, g, 0, 0, g.obytes)
    {
      hide Upto, Transfer, SentFrom, IsEntry, Queued, Shift;
      var currentsegment, offset, remaining: int, logAdr := 0, 0, g.obytes, g.logstartaddr;
      var first := g.hasdc && pushed == 0;
      mine := [];
      PushedAll(g, bus);
      assert before + [] == before;
      NoSegments(g);
      EmptyTransfer(LWR, g, 0, 0, g.obytes, iomap[..]);
      var more := true;
      while more
        modifies this, idx, data, length
        invariant Queued(g, bus) && pulled == 0 && stamp == DCtime == old(DCtime)
        invariant pushed == |before| + |mine| && sent == before + mine
        invariant first <==> g.hasdc && pushed == 0
        invariant currentsegment == |mine| && currentsegment <= last
        invariant Transfer(mine, LWR, g, 0, 0, g.obytes, iomap[..])
        invariant offset + remaining == g.obytes && offset == Clamp(Upto(g, currentsegment), 0, g.obytes)
        invariant logAdr == g.logstartaddr + offset
        invariant more ==> currentsegment < last
        invariant !more ==> remaining == 0 && mine != []
        decreases last - currentsegment, more
      {
        OutputPart(g, currentsegment, last);
        var sublength := g.iosegment[currentsegment];
        if remaining - sublength < 0 {
          sublength := remaining;
        }
        mine := SendSegment(LWR, g, bus, currentsegment, logAdr, offset, sublength, first, before, mine, 0, 0,
                            g.obytes);
        currentsegment, first := currentsegment + 1, false;
        remaining, logAdr, offset := remaining - sublength, logAdr + sublength, offset + sublength;
        more := remaining != 0 && currentsegment < g.nsegments;
      }
      FinishTransfer(mine, LWR, g, 0, 0, g.obytes, iomap[..]);
    }

    /** Exchanging the whole image (LRW). */
    method SendImage(g: Group, bus: Bus) returns (ghost mine: seq<Datagram>)
      requires ValidSegments(g) && 0 < Length(g) <= iomap.Length
      requires Queued(g, bus) && pulled == pushed == 0 && sent == [] && g.nsegments <= MAXBUF
      requires stamp == DCtime
      modifies this, idx, data, length
      ensures Queued(g, bus) && pulled == 0 && stamp == DCtime == old(DCtime)
      ensures sent == mine && mine != []
      ensures Complete(mine, LRW, g, 0, 0, Length(g))
    {
      hide Upto, Clamp, Transfer, SentFrom, IsEntry, ValidSegments, Queued, Length, Shift;
      StartOfImage(g, Length(g));
      assert sent == [] + [];
      var hi := Length(g);
      var currentsegment, offset, remaining, logAdr := 0, 0, hi, g.logstartaddr;
      var first := g.hasdc;
      mine := [];
      EmptyTransfer(LRW, g, 0, 0, hi, iomap[..]);
      var more := true;
      while more
        modifies this, idx, data, length
        invariant Queued(g, bus) && pulled == 0 && stamp == DCtime == old(DCtime) && pushed == |mine|
                  && sent == [] + mine
        invariant first <==> g.hasdc && pushed == 0
        invariant currentsegment == |mine| && currentsegment <= g.nsegments
        invariant Transfer(mine, LRW, g, 0, 0, hi, iomap[..])
        invariant offset + remaining == hi && offset == Clamp(Upto(g, currentsegment), 0, hi)
        invariant logAdr == g.logstartaddr + offset
        invariant more ==> currentsegment < g.nsegments
        invariant !more ==> remaining == 0 && mine != []
        decreases g.nsegments - currentsegment, more
      {
        ImagePart(g, currentsegment);
        var sublength := g.iosegment[currentsegment];
        mine := SendSegment(LRW, g, bus, currentsegment, logAdr, offset, sublength, first, [], mine, 0, 0, hi);
        currentsegment, first := currentsegment + 1, false;
        remaining, logAdr, offset := remaining - sublength, logAdr + sublength, offset + sublength;
        more := remaining != 0 && currentsegment < g.nsegments;
      }
      FinishTransfer(mine, LRW, g, 0, 0, hi, iomap[..]);
    }

    /** One frame off the stack: `first` says that it carries the clock datagram. Then the working
        counter of the process data is inside the frame, behind DCl bytes of data. A frame that has not come
        back is passed over. */
    method TakeFrame(g: Group, bus: Bus, pos: nat, first: bool, wkc0: nat) returns (wkc: nat, valid: bool)
      requires Queued(g, bus) && pos < pushed && (first <==> g.hasdc && pos == 0)
      requires first ==> wkc0 == 0 && bus.arrives(pos)
      requires Fits(sent[pos], Home(g), iomap.Length) && !sent[pos].command.FRMW?
      modifies this`DCtime, iomap
      ensures valid == bus.arrives(pos)
      ensures wkc == wkc0 + CountOf(sent[pos], pos, bus)
      ensures iomap[..] == ImageWith(old(iomap[..]), sent[pos], pos, bus, Home(g))
      ensures DCtime == if first then TimeOf(bus, g.clockSlave, stamp) else old(DCtime)
    {
      hide Return, Patch;
      wkc := wkc0;
      assert IsEntry(idx[pos], data[pos], length[pos], rx, sent[pos], pos, g, stamp, bus);
      valid := rx[idx[pos]].Some?;
      if valid {
        var frame := rx[idx[pos]].value;
        var wkc2 := LastCounter(frame);
        if Reads(frame.gram.command) {
          if first {
            assert frame.gram.data[..DCl] == frame.gram.data;
            CopyIn(iomap, data[pos], frame.gram.data[..DCl]);
            wkc := frame.gram.wkc;
            DCtime := frame.clock.value.data;
          } else {
            assert frame.gram.data[..length[pos]] == frame.gram.data;
            CopyIn(iomap, data[pos], frame.gram.data[..length[pos]]);
            wkc := wkc + wkc2;
          }
        } else if frame.gram.command.LWR? {
          // outputs count twice in LRW, so they do here
          if first {
            wkc := frame.gram.wkc * 2;
            DCtime := frame.clock.value.data;
          } else {
            wkc := wkc + wkc2 * 2;
          }
        }
      }
    }

    /** ecx_receive_processdata_group: take the frames off the stack, copy what was read back to its
        place in the IOmap, and add up the working counters of the frames that have come back. */
    method Receive(g: Group, bus: Bus) returns (wkc: int)
      requires Queued(g, bus) && pulled == 0 && (g.hasdc && sent != [] ==> bus.arrives(0))
      requires forall k {:trigger sent[k]} :: 0 <= k < |sent| ==>
                 Fits(sent[k], Home(g), iomap.Length) && !sent[k].command.FRMW?
      modifies this, iomap
      ensures Valid() && pushed == pulled == 0 && rx == map[]
      ensures wkc == if SomeArrives(bus, |old(sent)|) then ArrivedSum(old(sent), |old(sent)|, bus) else NOFRAME
      ensures iomap[..] == ArrivedImage(old(sent), |old(sent)|, bus, Home(g), old(iomap[..]))
      ensures DCtime == if g.hasdc && old(sent) != [] then TimeOf(bus, g.clockSlave, stamp) else old(DCtime)
      ensures stamp == old(stamp)
    {
      hide Return, Patch, Entries, Fits, ArrivedImage, ArrivedSum, Home, CountOf, ImageWith, SomeArrives;
      ghost var image := iomap[..];
      NothingArrived(sent, bus, Home(g), image);
      var sum: nat := 0;
      var validWkc, first := false, g.hasdc;
      var pos := PullIndex();
      ghost var done := 0;
      while pos >= 0
        modifies this`pulled, this`DCtime, iomap
        invariant Queued(g, bus)
        invariant done <= pushed && if pos >= 0 then pulled == pos + 1 && done == pos else pulled == pushed == done
        invariant sum == ArrivedSum(sent, done, bus) && (validWkc <==> SomeArrives(bus, done))
        invariant first <==> g.hasdc && done == 0
        invariant DCtime == if g.hasdc && done > 0 then TimeOf(bus, g.clockSlave, stamp) else old(DCtime)
        invariant iomap[..] == ArrivedImage(sent, done, bus, Home(g), image)
        decreases pushed - pulled, pos
      {
        assert Fits(sent[pos], Home(g), iomap.Length) && !sent[pos].command.FRMW?;
        OneMoreArrived(sent, done, bus, Home(g), image);
        var valid;
        sum, valid := TakeFrame(g, bus, pos, first, sum);
        if valid {
          first, validWkc := false, true;
        }
        done := done + 1;
        pos := PullIndex();
      }
      pushed, pulled, rx, sent := 0, 0, map[], [];
      wkc := if validWkc then sum else NOFRAME;
    }
  }

  /** What the k-th datagram adds to the working counter and to the IOmap: nothing if it does not come
      back. Writing counts twice in LRW, and so it does in LWR. */
  function CountOf(d: Datagram, k: nat, bus: Bus): nat {
    if bus.arrives(k) then Return(d, bus.slaves).wkc * (if d.command.LWR? then 2 else 1) else 0
  }

  function ImageWith(image: seq<byte>, d: Datagram, k: nat, bus: Bus, base: int): (r: seq<byte>)
    requires Fits(d, base, |image|)
    ensures |r| == |image|
  {
    if bus.arrives(k) && Reads(d.command) then Patch(image, d.addr - base, Return(d, bus.slaves).data) else image
  }

  /** The working counters and the IOmap after the first `k` datagrams, some of which may be lost. */
  function ArrivedSum(sent: seq<Datagram>, k: nat, bus: Bus): nat
    requires k <= |sent|
  {
    if k == 0 then 0 else ArrivedSum(sent, k - 1, bus) + CountOf(sent[k - 1], k - 1, bus)
  }

  function ArrivedImage(sent: seq<Datagram>, k: nat, bus: Bus, base: int, image: seq<byte>): (r: seq<byte>)
    requires k <= |sent| && forall i {:trigger sent[i]} :: 0 <= i < |sent| ==> Fits(sent[i], base, |image|)
    ensures |r| == |image|
  {
    if k == 0 then image else ImageWith(ArrivedImage(sent, k - 1, bus, base, image), sent[k - 1], k - 1, bus, base)
  }

  /** Some of the first `k` frames come back. */
  predicate SomeArrives(bus: Bus, k: nat) {
    k > 0 && (bus.arrives(k - 1) || SomeArrives(bus, k - 1))
  }

  lemma {:induction false} NothingArrived(sent: seq<Datagram>, bus: Bus, base: int, image: seq<byte>)
    requires forall i {:trigger sent[i]} :: 0 <= i < |sent| ==> Fits(sent[i], base, |image|)
    ensures ArrivedImage(sent, 0, bus, base, image) == image && ArrivedSum(sent, 0, bus) == 0 && !SomeArrives(bus, 0)
  {
  }

  lemma {:induction false} OneMoreArrived(sent: seq<Datagram>, k: nat, bus: Bus, base: int, image: seq<byte>)
    requires k < |sent| && forall i {:trigger sent[i]} :: 0 <= i < |sent| ==> Fits(sent[i], base, |image|)
    ensures ArrivedImage(sent, k + 1, bus, base, image)
            == ImageWith(ArrivedImage(sent, k, bus, base, image), sent[k], k, bus, base)
    ensures ArrivedSum(sent, k + 1, bus) == ArrivedSum(sent, k, bus) + CountOf(sent[k], k, bus)
    ensures SomeArrives(bus, k + 1) <==> bus.arrives(k) || SomeArrives(bus, k)
  {
    hide CountOf, ImageWith;
  }

  predicate Fits(d: Datagram, base: int, size: nat) {
    base <= d.addr && d.addr - base + |d.data| <= size
  }

  /** The IOmap after the first `k` replies have been taken in. */
  function Collected(sent: seq<Datagram>, k: nat, slaves: seq<Slave>, base: int, image: seq<byte>): (r: seq<byte>)
    requires k <= |sent| && forall i :: 0 <= i < k ==> Fits(sent[i], base, |image|)
    ensures |r| == |image|
  {
    if k == 0 then image
    else
      var before := Collected(sent, k - 1, slaves, base, image);
      assert Fits(sent[k - 1], base, |image|);
      if Reads(sent[k - 1].command) then Patch(before, sent[k - 1].addr - base, Return(sent[k - 1], slaves).data)
        else before
  }

  /** The working counters of the first `k` replies, those of LWR counted twice. */
  function WeightedSum(sent: seq<Datagram>, k: nat, slaves: seq<Slave>): nat
    requires k <= |sent|
  {
    if k == 0 then 0
    else WeightedSum(sent, k - 1, slaves)
         + Return(sent[k - 1], slaves).wkc * (if sent[k - 1].command.LWR? then 2 else 1)
  }

  lemma {:induction false} NoSegments(g: Group)
    ensures Upto(g, 0) == 0
  {
    assert g.iosegment[..0] == [];
  }

  lemma {:induction false} EmptyTransfer(c: Command, g: Group, base: nat, lo: nat, hi: nat, image: seq<byte>)
    requires lo <= hi && base <= |g.iosegment|
    ensures Transfer([], c, g, base, lo, hi, image)
  {
  }

  lemma {:induction false} FinishTransfer(mine: seq<Datagram>, c: Command, g: Group, base: nat, lo: nat, hi: nat,
                                          image: seq<byte>)
    requires Transfer(mine, c, g, base, lo, hi, image) && mine != []
    requires Clamp(Upto(g, base + |mine|), lo, hi) == hi > lo
    ensures Tiles(mine, g.logstartaddr + lo, g.logstartaddr + hi) && Upto(g, base + |mine|) >= hi
  {
    hide Upto;
  }

  lemma {:induction false} NothingTaken(sent: seq<Datagram>, slaves: seq<Slave>, base: int, image: seq<byte>)
    ensures Collected(sent, 0, slaves, base, image) == image && WeightedSum(sent, 0, slaves) == 0
  {
  }

  /** No frame is lost. */
  ghost predicate NoneLost(bus: Bus, n: nat) {
    forall k {:trigger bus.arrives(k)} :: 0 <= k < n ==> bus.arrives(k)
  }

  lemma {:induction false} AllArrived(sent: seq<Datagram>, k: nat, bus: Bus, base: int, image: seq<byte>)
    requires k <= |sent| && NoneLost(bus, k) && forall i {:trigger sent[i]} :: 0 <= i < |sent| ==>
               Fits(sent[i], base, |image|)
    ensures ArrivedSum(sent, k, bus) == WeightedSum(sent, k, bus.slaves)
    ensures forall i :: 0 <= i < k ==> Fits(sent[i], base, |image|)
    ensures ArrivedImage(sent, k, bus, base, image) == Collected(sent, k, bus.slaves, base, image)
    ensures SomeArrives(bus, k) <==> k > 0
  {
    hide Return, Patch, Fits;
    if k > 0 {
      AllArrived(sent, k - 1, bus, base, image);
      assert bus.arrives(k - 1);
    }
  }
}
