/** Finding the state of all slaves (ecx_readstate): by one broadcast if they all agree, else one by one. */
module ReadState {
  import opened Memory
  import opened FrameBuilder
  import opened ReadMulti

  const INIT := 1
  const PRE_OP := 2
  const BOOT := 3
  const SAFE_OP := 4
  const OPERATIONAL := 8

  predicate IsState(x: nat) { x == INIT || x == PRE_OP || x == BOOT || x == SAFE_OP || x == OPERATIONAL }

  /** The error bit of an AL status. */
  predicate HasError(alstatus: nat) { alstatus / 16 % 2 == 1 }

  /** The entry of a slave in the slave list; entry 0 is for all slaves together. */
  datatype Slave = Slave(configadr: word, state: nat, alstatuscode: nat)

  /** Bitwise or. */
  function Or(a: nat, b: nat): nat
    decreases a + b
  {
    if a == 0 then b
    else if b == 0 then a
    else 2 * Or(a / 2, b / 2) + (if a % 2 == 1 || b % 2 == 1 then 1 else 0)
  }

  /** What a broadcast over the first `k` slaves brings back. */
  ghost function Broadcast(list: seq<Slave>, bus: word -> Status, k: nat): nat
    requires k < |list|
  {
    if k == 0 then 0 else Or(Broadcast(list, bus, k - 1), bus(list[k].configadr).alstatus)
  }

  ghost function Lowest(list: seq<Slave>, bus: word -> Status, k: nat): nat
    requires k < |list|
  {
    if k == 0 then 0xff
    else
      var state := bus(list[k].configadr).alstatus % 16;
      if state < Lowest(list, bus, k - 1) then state else Lowest(list, bus, k - 1)
  }

  ghost function Codes(list: seq<Slave>, bus: word -> Status, k: nat): nat
    requires k < |list|
  {
    if k == 0 then 0 else Or(Codes(list, bus, k - 1), bus(list[k].configadr).alstatuscode)
  }

  /** The broadcast alone decides. */
  predicate Decided(rval: nat, wkc: int, slavecount: nat) {
    !HasError(rval) && IsState(rval % 16) && wkc >= slavecount
  }

  /** The list with one state for all slaves. */
  ghost predicate Same(list: seq<Slave>, after: seq<Slave>, state: nat) {
    && |after| == |list|
    && forall i {:trigger after[i]} :: 0 <= i < |list| ==> after[i] == list[i].(state := state, alstatuscode := 0)
  }

  /** Slave `i` as the bus reports it. */
  ghost predicate Reported(list: seq<Slave>, after: seq<Slave>, bus: word -> Status, i: nat)
    requires i < |list| == |after|
  {
    var s := bus(list[i].configadr);
    after[i] == list[i].(state := s.alstatus, alstatuscode := s.alstatuscode)
  }

  /** The list with what each slave reports, and in entry 0 the lowest state and all status codes. */
  ghost predicate Each(list: seq<Slave>, after: seq<Slave>, bus: word -> Status) {
    && |after| == |list| > 0
    && (forall i {:trigger after[i]} :: 1 <= i < |list| ==> Reported(list, after, bus, i))
    && after[0] == list[0].(state := Lowest(list, bus, |list| - 1), alstatuscode := Codes(list, bus, |list| - 1))
  }

  /** The first `k` slaves have been read. */
  ghost predicate SoFar(list: seq<Slave>, now: seq<Slave>, bus: word -> Status, k: nat, lowest: nat) {
    && k < |list| == |now|
    && (forall i {:trigger now[i]} :: 1 <= i <= k ==> Reported(list, now, bus, i))
    && (forall i {:trigger now[i]} :: k < i < |list| ==> now[i] == list[i])
    && now[0].configadr == list[0].configadr && now[0].alstatuscode == Codes(list, bus, k)
       && lowest == Lowest(list, bus, k)
  }

  /** The master's list of slaves, and the addresses it has asked one by one. */
  class Master {
    const slavelist: array<Slave>
    const port: Port
    ghost var asked: seq<word>

    constructor (slavelist: array<Slave>, port: Port)
      ensures this.slavelist == slavelist && this.port == port && asked == []
    {
      this.slavelist, this.port := slavelist, port;
      asked := [];
    }

    ghost predicate Valid()
      reads this, port
    {
      slavelist.Length > 0 && port.txbuf.Length == EC_BUFSIZE
    }

    /** Reads the state of all slaves; `rval` and `wkc` are what the broadcast brought back. */
    method ReadState(rval: nat, wkc: int, bus: word -> Status) returns (lowest: nat)
      requires Valid()
      modifies this, slavelist, port`txbuflength, port.txbuf
      ensures Decided(rval, wkc, slavelist.Length - 1) ==>
                Same(old(slavelist[..]), slavelist[..], rval % 16) && lowest == rval % 16 && asked == []
      ensures !Decided(rval, wkc, slavelist.Length - 1) ==>
                && Each(old(slavelist[..]), slavelist[..], bus)
                && lowest == Lowest(old(slavelist[..]), bus, slavelist.Length - 1)
                && AskedOnce(asked, old(slavelist[..]), slavelist.Length - 1)
    {
      hide HasError, IsState, Or, SoFar;
      asked := [];
      var slavecount := slavelist.Length - 1;
      var state := rval % 16;
      if Decided(rval, wkc, slavecount) {
        SetAll(state);
        lowest := state;
      } else {
        lowest := ReadEach(bus);
        AllRead(old(slavelist[..]), slavelist[..], bus, lowest);
        slavelist[0] := slavelist[0].(state := lowest);
      }
    }

    method SetAll(state: nat)
      requires Valid()
      modifies slavelist
      ensures Same(old(slavelist[..]), slavelist[..], state)
    {
      slavelist[0] := slavelist[0].(state := state, alstatuscode := 0);
      var slave := 1;
      while slave < slavelist.Length
        invariant 1 <= slave <= slavelist.Length
        invariant forall i :: 0 <= i < slave ==> slavelist[i] == old(slavelist[i]).(state := state, alstatuscode := 0)
        invariant forall i :: slave <= i < slavelist.Length ==> slavelist[i] == old(slavelist[i])
      {
        slavelist[slave] := slavelist[slave].(state := state, alstatuscode := 0);
        slave := slave + 1;
      }
    }

    /** Asks slave after slave, up to 64 with one frame. */
    method ReadEach(bus: word -> Status) returns (lowest: nat)
      requires Valid() && asked == []
      modifies this, slavelist, port`txbuflength, port.txbuf
      ensures SoFar(old(slavelist[..]), slavelist[..], bus, slavelist.Length - 1, lowest)
      ensures AskedOnce(asked, old(slavelist[..]), slavelist.Length - 1)
    {
      hide SoFar;
      ghost var list := slavelist[..];
      var slavecount := slavelist.Length - 1;
      slavelist[0] := slavelist[0].(alstatuscode := 0);
      lowest := 0xff;
      NothingRead(list, slavelist[..], bus);
      var lslave: nat := 0;
      while lslave < slavecount
        modifies this, slavelist, port`txbuflength, port.txbuf
        invariant lslave <= slavecount
        invariant SoFar(list, slavelist[..], bus, lslave, lowest)
        invariant AskedOnce(asked, list, lslave)
      {
        var fslave := lslave + 1;
        lslave := slavecount;
        if lslave - fslave >= MAX_FPRD_MULTI {
          lslave := fslave + MAX_FPRD_MULTI - 1;
        }
        lowest := ReadBatch(bus, fslave, lslave, lowest, list);
      }
    }

    /** Asks the slaves from `fslave` to `lslave`. */
    method ReadBatch(bus: word -> Status, fslave: nat, lslave: nat, lowest0: nat, ghost list: seq<Slave>)
      returns (lowest: nat)
      requires Valid() && 1 <= fslave <= lslave < slavelist.Length && lslave - fslave < MAX_FPRD_MULTI
      requires |list| == slavelist.Length && SoFar(list, slavelist[..], bus, fslave - 1, lowest0)
               && AskedOnce(asked, list, fslave - 1)
      modifies this, slavelist, port`txbuflength, port.txbuf
      ensures SoFar(list, slavelist[..], bus, lslave, lowest)
      ensures AskedOnce(asked, list, lslave)
    {
      hide SoFar;
      ghost var now := slavelist[..];
      var slca: seq<word> := [];
      var slave := fslave;
      while slave <= lslave
        modifies {}
        invariant fslave <= slave <= lslave + 1 && |slca| == slave - fslave
        invariant forall i {:trigger slca[i]} :: 0 <= i < |slca| ==> slca[i] == list[fslave + i].configadr
      {
        SameAddress(list, now, bus, fslave - 1, lowest0, slave);
        assert slavelist[slave] == now[slave];
        slca := slca + [slavelist[slave].configadr];
        slave := slave + 1;
      }
      var sl := ReadMulti.Read(port, 0, slca, bus);
      AskedMore(asked, slca, list, fslave);
      asked := asked + slca;
      assert slavelist[..] == now;
      lowest := lowest0;
      slave := fslave;
      while slave <= lslave
        modifies slavelist
        invariant fslave <= slave <= lslave + 1
        invariant SoFar(list, slavelist[..], bus, slave - 1, lowest)
      {
        var rval := sl[slave - fslave].alstatus;
        var code := sl[slave - fslave].alstatuscode;
        ghost var before := slavelist[..];
        assert slca[slave - fslave] == list[slave].configadr;
        slavelist[slave] := slavelist[slave].(state := rval, alstatuscode := code);
        slavelist[0] := slavelist[0].(alstatuscode := Or(slavelist[0].alstatuscode, code));
        OneMoreRead(list, before, slavelist[..], bus, slave, lowest);
        if rval % 16 < lowest {
          lowest := rval % 16;
        }
        slave := slave + 1;
      }
    }
  }

  /** The lowest state is the least of the low four bits of what the slaves report, without the error bit. */
  lemma {:induction false} LowestIsLeast(list: seq<Slave>, bus: word -> Status, k: nat)
    requires 1 <= k < |list|
    ensures forall i {:trigger list[i]} :: 1 <= i <= k ==>
              Lowest(list, bus, k) <= bus(list[i].configadr).alstatus % 0x10
    ensures exists i {:trigger list[i]} :: 1 <= i <= k && Lowest(list, bus, k) == bus(list[i].configadr).alstatus % 0x10
  {
    assert list[k] == list[k];
    if k > 1 {
      LowestIsLeast(list, bus, k - 1);
    }
  }

  /** Each of the first `k` slaves was asked exactly once, in order. */
  ghost predicate AskedOnce(asked: seq<word>, list: seq<Slave>, k: nat) {
    |asked| == k < |list| && forall i {:trigger asked[i]} :: 0 <= i < k ==> asked[i] == list[i + 1].configadr
  }

  lemma {:induction false} AskedMore(asked: seq<word>, more: seq<word>, list: seq<Slave>, first: nat)
    requires 1 <= first && AskedOnce(asked, list, first - 1) && first + |more| <= |list|
    requires forall i {:trigger more[i]} :: 0 <= i < |more| ==> more[i] == list[first + i].configadr
    ensures AskedOnce(asked + more, list, first + |more| - 1)
  {
    var all := asked + more;
    forall i | 0 <= i < |all| ensures all[i] == list[i + 1].configadr {
      if i >= |asked| {
        assert all[i] == more[i - |asked|];
      }
    }
  }

  lemma {:induction false} NothingRead(list: seq<Slave>, now: seq<Slave>, bus: word -> Status)
    requires list != [] && now == list[0 := list[0].(alstatuscode := 0)]
    ensures SoFar(list, now, bus, 0, 0xff)
  {
  }

  lemma {:induction false} AllRead(list: seq<Slave>, now: seq<Slave>, bus: word -> Status, lowest: nat)
    requires list != [] && SoFar(list, now, bus, |list| - 1, lowest)
    ensures Each(list, now[0 := now[0].(state := lowest)], bus)
    ensures lowest == Lowest(list, bus, |list| - 1)
  {
    hide Codes, Lowest;
    var after := now[0 := now[0].(state := lowest)];
    forall i | 1 <= i < |list| ensures Reported(list, after, bus, i) {
      assert after[i] == now[i];
    }
  }

  lemma {:induction false} SameAddress(list: seq<Slave>, now: seq<Slave>, bus: word -> Status, k: nat, lowest: nat,
                                       i: nat)
    requires SoFar(list, now, bus, k, lowest) && i < |list|
    ensures |now| == |list| && now[i].configadr == list[i].configadr
  {
    hide Codes, Lowest;
  }

  lemma {:induction false} OneMoreRead(list: seq<Slave>, before: seq<Slave>, after: seq<Slave>, bus: word -> Status,
                                       k: nat, lowest: nat)
    requires 1 <= k < |list| && SoFar(list, before, bus, k - 1, lowest)
    requires var s := bus(list[k].configadr);
             && |after| == |before|
             && after[k] == before[k].(state := s.alstatus, alstatuscode := s.alstatuscode)
             && after[0] == before[0].(alstatuscode := Or(before[0].alstatuscode, s.alstatuscode))
             && forall i {:trigger after[i]} :: 1 <= i < |after| && i != k ==> after[i] == before[i]
    ensures var state := bus(list[k].configadr).alstatus % 16;
            SoFar(list, after, bus, k, if state < lowest then state else lowest)
  {
    hide Or;
    forall i | 1 <= i <= k ensures Reported(list, after, bus, i) {
      assert before[i] == before[i];
      assert after[i] == after[i];
    }
    forall i | k < i < |list| ensures after[i] == list[i] {
      assert before[i] == list[i];
    }
  }

  /** The lowest `n` bits of `a` are all set in `b`. */
  ghost predicate Within(a: nat, b: nat, n: nat) {
    n == 0 || (a % 2 <= b % 2 && Within(a / 2, b / 2, n - 1))
  }

  lemma {:induction false} OrHalf(a: nat, b: nat)
    ensures Or(a, b) / 2 == Or(a / 2, b / 2)
    ensures Or(a, b) % 2 == if a % 2 == 1 || b % 2 == 1 then 1 else 0
  {
  }

  lemma {:induction false} WithinOr(a: nat, b: nat, c: nat, n: nat)
    requires Within(a, b, n) || Within(a, c, n)
    ensures Within(a, Or(b, c), n)
  {
    hide Or;
    if n > 0 {
      OrHalf(b, c);
      WithinOr(a / 2, b / 2, c / 2, n - 1);
    }
  }

  lemma {:induction false} WithinSelf(a: nat, n: nat)
    ensures Within(a, a, n)
  {
    if n > 0 {
      WithinSelf(a / 2, n - 1);
    }
  }

  /** The bits of every slave are in what the broadcast brings back. */
  lemma {:induction false} WithinBroadcast(list: seq<Slave>, bus: word -> Status, k: nat, i: nat, n: nat)
    requires 1 <= i <= k < |list|
    ensures Within(bus(list[i].configadr).alstatus, Broadcast(list, bus, k), n)
  {
    hide Or, Within;
    var a := bus(list[k].configadr).alstatus;
    if i < k {
      WithinBroadcast(list, bus, k - 1, i, n);
    } else {
      WithinSelf(a, n);
    }
    WithinOr(bus(list[i].configadr).alstatus, Broadcast(list, bus, k - 1), a, n);
  }

  /** The low bits of a number, one by one. */
  lemma {:induction false} Bits(x: nat)
    ensures x % 16 == x % 2 + 2 * (x / 2 % 2) + 4 * (x / 2 / 2 % 2) + 8 * (x / 2 / 2 / 2 % 2)
    ensures x / 16 % 2 == x / 2 / 2 / 2 / 2 % 2
  {
    Sixteen(x);
    Eight(x / 2);
    Four(x / 2 / 2);
    Quarter(x);
    Quarter(x / 2 / 2);
    Sixteenth(x);
  }

  lemma {:induction false} Sixteen(x: nat)
    ensures x % 16 == 2 * (x / 2 % 8) + x % 2
  {
  }

  lemma {:induction false} Eight(x: nat)
    ensures x % 8 == 2 * (x / 2 % 4) + x % 2
  {
  }

  lemma {:induction false} Four(x: nat)
    ensures x % 4 == 2 * (x / 2 % 2) + x % 2
  {
  }

  lemma {:induction false} Quarter(x: nat)
    ensures x / 2 / 2 == x / 4
  {
  }

  lemma {:induction false} Sixteenth(x: nat)
    ensures x / 4 / 4 == x / 16
  {
  }

  lemma {:induction false} WithinBits(a: nat, b: nat)
    requires Within(a, b, 5)
    ensures a % 2 <= b % 2 && a / 2 % 2 <= b / 2 % 2 && a / 2 / 2 % 2 <= b / 2 / 2 % 2
    ensures a / 2 / 2 / 2 % 2 <= b / 2 / 2 / 2 % 2 && a / 2 / 2 / 2 / 2 % 2 <= b / 2 / 2 / 2 / 2 % 2
  {
    assert Within(a / 2, b / 2, 4) && Within(a / 2 / 2, b / 2 / 2, 3);
    assert Within(a / 2 / 2 / 2, b / 2 / 2 / 2, 2) && Within(a / 2 / 2 / 2 / 2, b / 2 / 2 / 2 / 2, 1);
  }

  /** A slave's own status: a state, perhaps with the error bit, and nothing else. */
  predicate Legal(alstatus: nat) { alstatus < 32 && IsState(alstatus % 16) }

  /** Among states that are single bits there is no other way to the same result; the state BOOT has the
      bits of INIT and PRE_OP. */
  lemma {:induction false} StateIsForced(a: nat, b: nat)
    requires Within(a, b, 5) && Legal(a) && IsState(b % 16) && !HasError(b)
    ensures a == a % 16 && (b % 16 == BOOT ==> a <= BOOT) && (b % 16 != BOOT ==> a == b % 16)
  {
    WithinBits(a, b);
    Bits(a);
    Bits(b);
    hide Within;
    var b0, b1, b2, b3 := b % 2, b / 2 % 2, b / 2 / 2 % 2, b / 2 / 2 / 2 % 2;
    var a0, a1, a2, a3 := a % 2, a / 2 % 2, a / 2 / 2 % 2, a / 2 / 2 / 2 % 2;
    assert a0 <= b0 <= 1 && a1 <= b1 <= 1 && a2 <= b2 <= 1 && a3 <= b3 <= 1;
  }

  lemma {:induction false} LowestOfSame(list: seq<Slave>, bus: word -> Status, k: nat, state: nat)
    requires 1 <= k < |list| && state < 16
    requires forall i {:trigger list[i]} :: 1 <= i <= k ==> bus(list[i].configadr).alstatus == state
    ensures Lowest(list, bus, k) == state
  {
    if k > 1 {
      LowestOfSame(list, bus, k - 1, state);
    } else {
      assert bus(list[1].configadr).alstatus == state;
    }
  }

  /** All slaves report this state. */
  ghost predicate AllIn(list: seq<Slave>, bus: word -> Status, state: nat) {
    forall i {:trigger list[i]} :: 1 <= i < |list| ==> bus(list[i].configadr).alstatus == state
  }

  /** When the broadcast over all slaves decides, it records the same states and finds the same lowest
      state as asking each slave, if and only if it did not bring back BOOT or all slaves are in BOOT. */
  lemma {:induction false} FastPathIsExact(list: seq<Slave>, fast: seq<Slave>, slow: seq<Slave>, bus: word -> Status)
    requires |list| > 1
    requires var rval := Broadcast(list, bus, |list| - 1);
             !HasError(rval) && IsState(rval % 16) && Same(list, fast, rval % 16) && Each(list, slow, bus)
    requires forall i {:trigger list[i]} :: 1 <= i < |list| ==> Legal(bus(list[i].configadr).alstatus)
    ensures var state := Broadcast(list, bus, |list| - 1) % 16;
            && (state != BOOT || AllIn(list, bus, BOOT) <==> AllIn(list, bus, state))
            && (AllIn(list, bus, state) <==>
                 forall i {:trigger fast[i]} :: 0 <= i < |list| ==> fast[i].state == slow[i].state)
            && (AllIn(list, bus, state) ==> Lowest(list, bus, |list| - 1) == state)
  {
    hide Broadcast, Lowest, Codes, Legal, HasError, IsState;
    var rval := Broadcast(list, bus, |list| - 1);
    var state := rval % 16;
    forall i | 1 <= i < |list|
      ensures state != BOOT ==> bus(list[i].configadr).alstatus == state
    {
      WithinBroadcast(list, bus, |list| - 1, i, 5);
      assert Legal(bus(list[i].configadr).alstatus);
      StateIsForced(bus(list[i].configadr).alstatus, rval);
    }
    if AllIn(list, bus, state) {
      LowestOfSame(list, bus, |list| - 1, state);
      forall i | 0 <= i < |list| ensures fast[i].state == slow[i].state {
        assert fast[i] == list[i].(state := state, alstatuscode := 0);
        assert i > 0 ==> Reported(list, slow, bus, i) && bus(list[i].configadr).alstatus == state;
      }
    } else {
      var i :| 1 <= i < |list| && bus(list[i].configadr).alstatus != state;
      assert fast[i] == list[i].(state := state, alstatuscode := 0) && slow[i] == slow[i];
      assert Reported(list, slow, bus, i);
    }
  }

  /** What a broadcast brings back of which only some of the first `k` slaves take part, and how many these are. */
  ghost function PartialBroadcast(list: seq<Slave>, bus: word -> Status, present: nat -> bool, k: nat): nat
    requires k < |list|
  {
    if k == 0 then 0
    else if present(k) then Or(PartialBroadcast(list, bus, present, k - 1), bus(list[k].configadr).alstatus)
    else PartialBroadcast(list, bus, present, k - 1)
  }

  ghost function Present(present: nat -> bool, k: nat): (n: nat)
    ensures n <= k
  {
    if k == 0 then 0 else Present(present, k - 1) + (if present(k) then 1 else 0)
  }

  ghost predicate AllPresent(present: nat -> bool, k: nat) {
    forall i {:trigger present(i)} :: 1 <= i <= k ==> present(i)
  }

  lemma {:induction false} PresentAll(list: seq<Slave>, bus: word -> Status, present: nat -> bool, k: nat)
    requires k < |list|
    ensures Present(present, k) == k <==> AllPresent(present, k)
    ensures AllPresent(present, k) ==> PartialBroadcast(list, bus, present, k) == Broadcast(list, bus, k)
  {
    hide Or;
    if k > 0 {
      PresentAll(list, bus, present, k - 1);
      if AllPresent(present, k) {
        assert present(k);
      }
    }
  }

  /** A broadcast that a slave of the list has missed, or that brings back the error bit of one, never decides. */
  lemma {:induction false} MissingIsSeen(list: seq<Slave>, bus: word -> Status, present: nat -> bool, i: nat)
    requires 1 <= i < |list| && (!present(i) || bus(list[i].configadr).alstatus / 0x10 % 2 == 1)
    ensures var n := |list| - 1; !Decided(PartialBroadcast(list, bus, present, n), Present(present, n), n)
  {
    hide IsState;
    var n := |list| - 1;
    PresentAll(list, bus, present, n);
    if AllPresent(present, n) {
      assert present(i);
      WithinBroadcast(list, bus, n, i, 5);
      var a, b := bus(list[i].configadr).alstatus, Broadcast(list, bus, n);
      WithinBits(a, b);
      Bits(a);
      Bits(b);
    }
  }

  /** If one slave is in SAFE_OP or OPERATIONAL and another one in a different state, the broadcast does not decide. */
  lemma {:induction false} DifferenceIsSeen(list: seq<Slave>, bus: word -> Status, present: nat -> bool, i: nat, j: nat)
    requires 1 <= i < |list| && 1 <= j < |list|
    requires Legal(bus(list[i].configadr).alstatus) && Legal(bus(list[j].configadr).alstatus)
    requires bus(list[i].configadr).alstatus == 4 || bus(list[i].configadr).alstatus == 8
    requires bus(list[j].configadr).alstatus != bus(list[i].configadr).alstatus
    ensures var n := |list| - 1; !Decided(PartialBroadcast(list, bus, present, n), Present(present, n), n)
  {
    hide IsState, HasError, Within;
    var n := |list| - 1;
    PresentAll(list, bus, present, n);
    var b := Broadcast(list, bus, n);
    if AllPresent(present, n) && !HasError(b) && IsState(b % 16) {
      WithinBroadcast(list, bus, n, i, 5);
      WithinBroadcast(list, bus, n, j, 5);
      StateIsForced(bus(list[i].configadr).alstatus, b);
      StateIsForced(bus(list[j].configadr).alstatus, b);
    }
  }

  lemma {:induction false} OrSame(a: nat)
    ensures Or(a, a) == a && Or(0, a) == a
    decreases a
  {
    if a > 0 {
      OrSame(a / 2);
    }
  }

  lemma {:induction false} BroadcastOfSame(list: seq<Slave>, bus: word -> Status, k: nat, state: nat)
    requires 1 <= k < |list|
    requires forall i {:trigger list[i]} :: 1 <= i <= k ==> bus(list[i].configadr).alstatus == state
    ensures Broadcast(list, bus, k) == state
  {
    OrSame(state);
    hide Or;
    assert bus(list[k].configadr).alstatus == state;
    if k > 1 {
      BroadcastOfSame(list, bus, k - 1, state);
    } else {
      assert Broadcast(list, bus, 0) == 0;
    }
  }

  /** If all slaves are there and in the same state, INIT, PRE_OP, BOOT, SAFE_OP or OPERATIONAL, the broadcast
      decides, and for this state. */
  lemma {:induction false} AgreementDecides(list: seq<Slave>, bus: word -> Status, present: nat -> bool, state: nat)
    requires |list| > 1 && AllPresent(present, |list| - 1) && AllIn(list, bus, state)
    requires state == 1 || state == 2 || state == 3 || state == 4 || state == 8
    ensures var n := |list| - 1; var rval := PartialBroadcast(list, bus, present, n);
            Decided(rval, Present(present, n), n) && rval % 16 == state
  {
    var n := |list| - 1;
    PresentAll(list, bus, present, n);
    BroadcastOfSame(list, bus, n, state);
  }

  /** For example, one slave in INIT and one in PRE_OP: the broadcast brings back BOOT, which decides, and
      neither slave is in it. */
  lemma {:induction false} InitAndPreOpLookLikeBoot(list: seq<Slave>, bus: word -> Status)
    requires |list| == 3 && bus(list[1].configadr).alstatus == INIT && bus(list[2].configadr).alstatus == PRE_OP
    ensures Broadcast(list, bus, 2) == BOOT && Decided(Broadcast(list, bus, 2), 2, 2)
    ensures Lowest(list, bus, 2) == INIT && !AllIn(list, bus, BOOT)
  {
    assert Broadcast(list, bus, 1) == INIT;
    assert Or(INIT, PRE_OP) == 3 by {
      assert Or(0, 1) == 1;
    }
    assert Lowest(list, bus, 1) == INIT;
    assert bus(list[1].configadr).alstatus != BOOT;
  }
}
