/** The bus as the process-data exchange sees it: slaves with a window of the logical image for their
    outputs and one for their inputs, visited one after the other by every datagram. */
module Wire {
  import opened Memory
  import opened Bits
  import opened Numbers

  datatype Command = LRD | LWR | LRW | FRMW

  datatype Datagram = Datagram(command: Command, addr: nat, data: seq<byte>, wkc: nat)

  /** A slave with one FMMU per direction, which covers a window of bits; a window of length 0 stands for none.
      `input` is what the slave puts on the bus in this cycle. */
  datatype Slave = Slave(outStart: nat, outLen: nat, inStart: nat, inLen: nat, input: seq<bool>)

  ghost predicate ValidBus(slaves: seq<Slave>) {
    forall j :: 0 <= j < |slaves| ==> |slaves[j].input| == slaves[j].inLen
  }

  predicate Covers(start: nat, len: nat, x: nat) { start <= x < start + len }

  /** A window and the `n` bytes from `addr` on have a bit in common. */
  predicate Meets(start: nat, len: nat, addr: nat, n: nat) {
    start < 8 * (addr + n) && 8 * addr < start + len && len > 0 && n > 0
  }

  predicate Reads(c: Command) { c.LRD? || c.LRW? }

  predicate Writes(c: Command) { c.LWR? || c.LRW? }

  /** The bit at logical bit address `x` after the first `j` slaves have passed a datagram on. */
  function BitAfter(c: Command, slaves: seq<Slave>, j: nat, x: nat, b: bool): bool
    requires j <= |slaves|
  {
    if j == 0 then b
    else
      var s := slaves[j - 1];
      if Reads(c) && Covers(s.inStart, s.inLen, x) && x - s.inStart < |s.input| then s.input[x - s.inStart]
      else BitAfter(c, slaves, j - 1, x, b)
  }

  /** The bits of the byte at logical address `x`. */
  function BitsAfter(c: Command, slaves: seq<Slave>, j: nat, x: nat, b: byte): nat -> bool
    requires j <= |slaves|
  {
    (k: nat) => BitAfter(c, slaves, j, 8 * x + k, Bit(b, k))
  }

  function ByteAfter(c: Command, slaves: seq<Slave>, j: nat, x: nat, b: byte): byte
    requires j <= |slaves|
  {
    Byte(BitsAfter(c, slaves, j, x, b))
  }

  lemma {:induction false} BitOfByteAfter(c: Command, slaves: seq<Slave>, j: nat, x: nat, b: byte, k: nat)
    requires j <= |slaves| && k < 8
    ensures Bit(ByteAfter(c, slaves, j, x, b), k) == BitAfter(c, slaves, j, 8 * x + k, Bit(b, k))
  {
    hide Bit, BitAfter, Byte;
    BitOfByte(BitsAfter(c, slaves, j, x, b), k);
  }

  /** What one slave adds to the working counter: reading counts 1, writing counts 1, or 2 for LRW. */
  function Share(c: Command, s: Slave, addr: nat, n: nat): nat {
    (if Reads(c) && Meets(s.inStart, s.inLen, addr, n) then 1 else 0)
    + (if Writes(c) && Meets(s.outStart, s.outLen, addr, n) then (if c.LRW? then 2 else 1) else 0)
  }

  function Counter(c: Command, slaves: seq<Slave>, j: nat, addr: nat, n: nat): nat
    requires j <= |slaves|
  {
    if j == 0 then 0 else Counter(c, slaves, j - 1, addr, n) + Share(c, slaves[j - 1], addr, n)
  }

  /** The datagram as it comes back from the bus. */
  function Return(g: Datagram, slaves: seq<Slave>): (r: Datagram)
    ensures |r.data| == |g.data| && r.command == g.command && r.addr == g.addr
  {
    g.(data := seq(|g.data|,
                   i requires 0 <= i < |g.data| => ByteAfter(g.command, slaves, |slaves|, g.addr + i, g.data[i])),
       wkc := Counter(g.command, slaves, |slaves|, g.addr, |g.data|))
  }

  /** The output bits that slave `j` takes from a datagram, if any. */
  function Taken(g: Datagram, slaves: seq<Slave>, j: nat): seq<seq<bool>>
    requires j < |slaves|
  {
    var s := slaves[j];
    if Writes(g.command) && Meets(s.outStart, s.outLen, g.addr, |g.data|) then
      var from, to := Max(s.outStart, 8 * g.addr), Min(s.outStart + s.outLen, 8 * (g.addr + |g.data|));
      [seq<bool>(to - from, i requires 0 <= i < to - from =>
             BitAfter(g.command, slaves, j, from + i, BitAt(g.data, from + i - 8 * g.addr)))]
    else []
  }

  /** All that slave `j` takes from a sequence of datagrams, in order. */
  function AllTaken(sent: seq<Datagram>, slaves: seq<Slave>, j: nat): seq<seq<bool>>
    requires j < |slaves|
  {
    if sent == [] then [] else AllTaken(sent[..|sent| - 1], slaves, j) + Taken(sent[|sent| - 1], slaves, j)
  }

  /** How many of the datagrams have a bit of a window. */
  function Meetings(sent: seq<Datagram>, start: nat, len: nat): nat {
    if sent == [] then 0
    else Meetings(sent[..|sent| - 1], start, len)
         + (if Meets(start, len, sent[|sent| - 1].addr, |sent[|sent| - 1].data|) then 1 else 0)
  }

  /** The datagrams lie one behind the other from `from` to `to`. */
  ghost predicate Tiles(sent: seq<Datagram>, from: nat, to: nat) {
    if sent == [] then from == to
    else
      var g := sent[|sent| - 1];
      from <= g.addr && g.addr + |g.data| == to && Tiles(sent[..|sent| - 1], from, g.addr)
  }

  lemma {:induction false} NoMeetingOutside(sent: seq<Datagram>, from: nat, to: nat, start: nat, len: nat)
    requires Tiles(sent, from, to) && (start + len <= 8 * from || 8 * to <= start)
    ensures Meetings(sent, start, len) == 0
  {
    if sent != [] {
      var g := sent[|sent| - 1];
      TilesGrow(sent[..|sent| - 1], from, g.addr);
      NoMeetingOutside(sent[..|sent| - 1], from, g.addr, start, len);
    }
  }

  lemma {:induction false} TilesGrow(sent: seq<Datagram>, from: nat, to: nat)
    requires Tiles(sent, from, to)
    ensures from <= to
  {
    if sent != [] {
      TilesGrow(sent[..|sent| - 1], from, sent[|sent| - 1].addr);
    }
  }

  lemma {:induction false} TilesStep(sent: seq<Datagram>, g: Datagram, from: nat)
    requires Tiles(sent, from, g.addr)
    ensures Tiles(sent + [g], from, g.addr + |g.data|)
  {
    assert (sent + [g])[..|sent|] == sent;
    TilesGrow(sent, from, g.addr);
  }

  /** A window that lies within one of the datagrams is met exactly once. */
  lemma {:induction false} OneMeeting(sent: seq<Datagram>, from: nat, to: nat, i: nat, start: nat, len: nat)
    requires Tiles(sent, from, to) && i < |sent| && len > 0
    requires 8 * sent[i].addr <= start && start + len <= 8 * (sent[i].addr + |sent[i].data|)
    ensures Meetings(sent, start, len) == 1
    ensures 8 * from <= start && start + len <= 8 * to
  {
    var last := |sent| - 1;
    var g := sent[last];
    if i == last {
      NoMeetingOutside(sent[..last], from, g.addr, start, len);
      TilesGrow(sent[..last], from, g.addr);
    } else {
      assert sent[..last][i] == sent[i];
      OneMeeting(sent[..last], from, g.addr, i, start, len);
    }
  }

  /** A window that begins among the datagrams is met. */
  lemma {:induction false} MetAtAll(sent: seq<Datagram>, from: nat, to: nat, start: nat, len: nat)
    requires Tiles(sent, from, to) && len > 0 && 8 * from <= start < 8 * to
    ensures Meetings(sent, start, len) >= 1
  {
    var g := sent[|sent| - 1];
    if start < 8 * g.addr {
      MetAtAll(sent[..|sent| - 1], from, g.addr, start, len);
    }
  }

  predicate InDatagram(g: Datagram, start: nat, len: nat) {
    8 * g.addr <= start && start + len <= 8 * (g.addr + |g.data|)
  }

  /** A window among the datagrams is met once exactly if it lies within one of them; a slave whose window is
      cut counts more than once. */
  lemma {:induction false} MetOnceIff(sent: seq<Datagram>, from: nat, to: nat, start: nat, len: nat)
    requires Tiles(sent, from, to) && len > 0 && 8 * from <= start && start + len <= 8 * to
    ensures Meetings(sent, start, len) >= 1
    ensures Meetings(sent, start, len) == 1 <==> exists i :: 0 <= i < |sent| && InDatagram(sent[i], start, len)
  {
    MetAtAll(sent, from, to, start, len);
    if i :| 0 <= i < |sent| && InDatagram(sent[i], start, len) {
      OneMeeting(sent, from, to, i, start, len);
    } else {
      MetTwice(sent, from, to, start, len);
    }
  }

  lemma {:induction false} MetTwice(sent: seq<Datagram>, from: nat, to: nat, start: nat, len: nat)
    requires Tiles(sent, from, to) && len > 0 && 8 * from <= start && start + len <= 8 * to
    requires forall i :: 0 <= i < |sent| ==> !InDatagram(sent[i], start, len)
    ensures Meetings(sent, start, len) >= 2
  {
    var init, g := sent[..|sent| - 1], sent[|sent| - 1];
    assert !InDatagram(g, start, len);
    TilesGrow(init, from, g.addr);
    if start + len <= 8 * g.addr {
      MetTwice(init, from, g.addr, start, len);
    } else {
      MetAtAll(init, from, g.addr, start, len);
    }
  }

  /** ... and then its slave takes exactly one output image, the bits of that datagram. */
  lemma {:induction false} TakenOnce(sent: seq<Datagram>, from: nat, to: nat, slaves: seq<Slave>, j: nat, i: nat)
    requires Tiles(sent, from, to) && i < |sent| && j < |slaves| && slaves[j].outLen > 0
    requires 8 * sent[i].addr <= slaves[j].outStart
    requires slaves[j].outStart + slaves[j].outLen <= 8 * (sent[i].addr + |sent[i].data|)
    ensures AllTaken(sent, slaves, j) == Taken(sent[i], slaves, j)
  {
    hide Taken, Meets;
    var last := |sent| - 1;
    var s, g := slaves[j], sent[last];
    if i == last {
      TakenNever(sent[..last], from, g.addr, slaves, j);
    } else {
      assert sent[..last][i] == sent[i];
      TakenOnce(sent[..last], from, g.addr, slaves, j, i);
      OneMeeting(sent[..last], from, g.addr, i, s.outStart, s.outLen);
      NotTaken(g, slaves, j);
    }
  }

  lemma {:induction false} NotTaken(g: Datagram, slaves: seq<Slave>, j: nat)
    requires j < |slaves|
    requires slaves[j].outStart + slaves[j].outLen <= 8 * g.addr || 8 * (g.addr + |g.data|) <= slaves[j].outStart
    ensures Taken(g, slaves, j) == []
  {
  }

  lemma {:induction false} TakenNever(sent: seq<Datagram>, from: nat, to: nat, slaves: seq<Slave>, j: nat)
    requires Tiles(sent, from, to) && j < |slaves|
    requires slaves[j].outStart + slaves[j].outLen <= 8 * from || 8 * to <= slaves[j].outStart
    ensures AllTaken(sent, slaves, j) == []
  {
    hide Taken;
    if sent != [] {
      var g := sent[|sent| - 1];
      TilesGrow(sent[..|sent| - 1], from, g.addr);
      TakenNever(sent[..|sent| - 1], from, g.addr, slaves, j);
      NotTaken(g, slaves, j);
    }
  }

  /** The working counters of a sequence of datagrams of one kind, added up. */
  function CounterSum(c: Command, sent: seq<Datagram>, slaves: seq<Slave>, j: nat): nat
    requires j <= |slaves|
  {
    if sent == [] then 0
    else CounterSum(c, sent[..|sent| - 1], slaves, j)
         + Counter(c, slaves, j, sent[|sent| - 1].addr, |sent[|sent| - 1].data|)
  }

  /** The same sum slave by slave: each adds what its meetings are worth. */
  lemma {:induction false} CounterBySlave(c: Command, sent: seq<Datagram>, slaves: seq<Slave>, j: nat)
    requires 0 < j <= |slaves|
    ensures CounterSum(c, sent, slaves, j)
            == CounterSum(c, sent, slaves, j - 1)
               + (if Reads(c) then Meetings(sent, slaves[j - 1].inStart, slaves[j - 1].inLen) else 0)
               + (if Writes(c) then Meetings(sent, slaves[j - 1].outStart, slaves[j - 1].outLen) else 0)
                 * (if c.LRW? then 2 else 1)
  {
    hide Meets;
    if sent != [] {
      CounterBySlave(c, sent[..|sent| - 1], slaves, j);
    }
  }

  lemma {:induction false} CounterOfNobody(c: Command, sent: seq<Datagram>, slaves: seq<Slave>)
    ensures CounterSum(c, sent, slaves, 0) == 0
  {
    if sent != [] {
      CounterOfNobody(c, sent[..|sent| - 1], slaves);
    }
  }

  /** How many of the first `j` slaves have outputs, and how many have inputs. */
  function OutputCount(slaves: seq<Slave>, j: nat): nat
    requires j <= |slaves|
  {
    if j == 0 then 0 else OutputCount(slaves, j - 1) + (if slaves[j - 1].outLen > 0 then 1 else 0)
  }

  function InputCount(slaves: seq<Slave>, j: nat): nat
    requires j <= |slaves|
  {
    if j == 0 then 0 else InputCount(slaves, j - 1) + (if slaves[j - 1].inLen > 0 then 1 else 0)
  }

  /** Every window of one direction is met exactly once by the datagrams. */
  ghost predicate OutputsMetOnce(sent: seq<Datagram>, slaves: seq<Slave>) {
    forall j {:trigger slaves[j]} :: 0 <= j < |slaves| ==>
      Meetings(sent, slaves[j].outStart, slaves[j].outLen) == if slaves[j].outLen > 0 then 1 else 0
  }

  ghost predicate InputsMetOnce(sent: seq<Datagram>, slaves: seq<Slave>) {
    forall j {:trigger slaves[j]} :: 0 <= j < |slaves| ==>
      Meetings(sent, slaves[j].inStart, slaves[j].inLen) == if slaves[j].inLen > 0 then 1 else 0
  }

  /** The rules of the working counter, summed over all datagrams of one kind. */
  lemma {:induction false} ExpectedCounter(c: Command, sent: seq<Datagram>, slaves: seq<Slave>, j: nat)
    requires j <= |slaves| && !c.FRMW?
    requires Reads(c) ==> InputsMetOnce(sent, slaves)
    requires Writes(c) ==> OutputsMetOnce(sent, slaves)
    ensures CounterSum(c, sent, slaves, j)
            == (if Reads(c) then InputCount(slaves, j) else 0)
               + (if c.LRW? then 2 * OutputCount(slaves, j) else if c.LWR? then OutputCount(slaves, j) else 0)
  {
    hide Meetings;
    if j == 0 {
      CounterOfNobody(c, sent, slaves);
    } else {
      ExpectedCounter(c, sent, slaves, j - 1);
      CounterBySlave(c, sent, slaves, j);
    }
  }

  /** A bit that no input covers is passed on unchanged. */
  lemma {:induction false} NoInputHere(c: Command, slaves: seq<Slave>, j: nat, x: nat, b: bool)
    requires j <= |slaves|
    requires forall i :: 0 <= i < j ==> !Covers(slaves[i].inStart, slaves[i].inLen, x)
    ensures BitAfter(c, slaves, j, x, b) == b
  {
    if j > 0 {
      NoInputHere(c, slaves, j - 1, x, b);
    }
  }

  /** ... and so is a byte. */
  lemma {:induction false} NoInputInByte(c: Command, slaves: seq<Slave>, j: nat, x: nat, b: byte)
    requires j <= |slaves|
    requires forall i :: 0 <= i < j ==> !Meets(slaves[i].inStart, slaves[i].inLen, x, 1)
    ensures ByteAfter(c, slaves, j, x, b) == b
  {
    hide Bit, BitAfter, ByteAfter;
    var r := ByteAfter(c, slaves, j, x, b);
    forall k {:trigger Bit(r, k)} | 0 <= k < 8 ensures Bit(r, k) == Bit(b, k) {
      BitOfByteAfter(c, slaves, j, x, b, k);
      NoInputHere(c, slaves, j, 8 * x + k, Bit(b, k));
    }
    SameByte(r, b);
  }

  /** A bit that is covered by exactly one input window comes back with that slave's input. */
  lemma {:induction false} InputHere(c: Command, slaves: seq<Slave>, j: nat, k: nat, x: nat, b: bool)
    requires k < j <= |slaves| && Reads(c) && ValidBus(slaves) && Covers(slaves[k].inStart, slaves[k].inLen, x)
    requires forall i :: k < i < j ==> !Covers(slaves[i].inStart, slaves[i].inLen, x)
    ensures BitAfter(c, slaves, j, x, b) == slaves[k].input[x - slaves[k].inStart]
  {
    if j > k + 1 {
      InputHere(c, slaves, j - 1, k, x, b);
    }
  }
}
