/** The slave list as the mapper sees it, and the mapping of one slave in one direction. */
module ProcessImage {
  import opened Numbers
  import opened FmmuMapping

  datatype Direction = Outputs | Inputs

  /** A pointer into the IOmap: not set, a place in the map, or the unset pointer moved on by some
      distance, which is set and yet no place in the map. */
  datatype Address = Null | InMap(offset: int) | Stray(distance: nat)

  /** The fields of a slave list entry that the mapper reads and writes. */
  datatype Slave = Slave(group: nat, sm: seq<Sm>, obits: nat, ibits: nat, obytes: nat, ibytes: nat,
                         fmmu: seq<Fmmu>, fmmuUnused: nat,
                         outputs: Address, ostartbit: nat, inputs: Address, istartbit: nat,
                         blockLRW: nat)

  predicate WellFormed(s: Slave) {
    |s.sm| == MAX_SM && |s.fmmu| == MAX_FMMU && s.fmmuUnused <= MAX_FMMU
  }

  function Bits(s: Slave, d: Direction): nat {
    match d case Outputs => s.obits case Inputs => s.ibits
  }

  /** The byte count field; it stays zero for a slave of seven bits or less. */
  function Bytes(s: Slave, d: Direction): nat {
    match d case Outputs => s.obytes case Inputs => s.ibytes
  }

  function BytesFor(bits: nat): nat {
    if bits > 7 then (bits + 7) / 8 else 0
  }

  /** The process data of a slave in one direction. */
  function DataOf(s: Slave, d: Direction): (a: Area)
    requires WellFormed(s)
    ensures a.Valid()
  {
    AreaOf(s.sm, if d.Outputs? then 3 else 4, Bits(s, d))
  }

  /** The first unused FMMU: the inputs of a slave with outputs skip entries that are in use. */
  function FirstFree(fmmu: seq<Fmmu>, c: nat): (r: nat)
    requires c <= |fmmu|
    ensures c <= r <= |fmmu|
    decreases |fmmu| - c
  {
    if c < |fmmu| && fmmu[c].logStart != 0 then FirstFree(fmmu, c + 1) else c
  }

  function FirstFmmu(s: Slave, d: Direction): (r: nat)
    requires WellFormed(s)
    ensures r <= MAX_FMMU
  {
    if d.Inputs? && s.obits > 0 then FirstFree(s.fmmu, s.fmmuUnused) else s.fmmuUnused
  }

  /** The number of working-counter increments that a list of FMMUs causes. */
  function ActiveCount(fs: seq<Fmmu>): nat {
    if fs == [] then 0 else (if fs[0].active then 1 else 0) + ActiveCount(fs[1..])
  }

  /** The FMMU table with a list of entries written from index `at` on. */
  function WriteAt(fmmu: seq<Fmmu>, at: nat, fs: seq<Fmmu>): (r: seq<Fmmu>)
    requires at + |fs| <= |fmmu|
    ensures |r| == |fmmu|
    ensures forall j :: 0 <= j < |fs| ==> r[at + j] == fs[j]
    ensures forall j :: 0 <= j < |r| && !(at <= j < at + |fs|) ==> r[j] == fmmu[j]
  {
    fmmu[..at] + fs + fmmu[at + |fs|..]
  }

  /** The offset of a logical address in the IOmap. */
  function Offset(group: nat, base: nat, logStart: nat): int {
    if group != 0 then logStart - base else logStart
  }

  /** The place of a slave's data in the IOmap is that of its first FMMU, unless it is set already. */
  function Located(s: Slave, d: Direction, f: Fmmu, group: nat, base: nat): Slave {
    match d
    case Outputs =>
      if s.outputs.Null? then s.(outputs := InMap(Offset(group, base, f.logStart)), ostartbit := f.logStartbit) else s
    case Inputs =>
      if s.inputs.Null? then s.(inputs := InMap(Offset(group, base, f.logStart)), istartbit := f.logStartbit) else s
  }

  /** The slave after a list of FMMUs for one direction has been entered from index `at` on. */
  function Entered(s: Slave, d: Direction, at: nat, fs: seq<Fmmu>, group: nat, base: nat): (r: Slave)
    requires at + |fs| <= |s.fmmu|
    ensures |r.fmmu| == |s.fmmu|
  {
    var t := s.(fmmu := WriteAt(s.fmmu, at, fs));
    if fs == [] then t else Located(t, d, fs[0], group, base)
  }

  /** The slave after one direction has been mapped at bit cursor `cursor` of the image. */
  function Mapped(s: Slave, d: Direction, cursor: nat, group: nat, base: nat): Slave
    requires WellFormed(s) && FirstFmmu(s, d) + |Fmmus(DataOf(s, d), cursor)| <= MAX_FMMU
  {
    var fs := Fmmus(DataOf(s, d), cursor);
    Entered(s, d, FirstFmmu(s, d), fs, group, base).(fmmuUnused := FirstFmmu(s, d) + |fs|)
  }

  lemma {:induction false} EnterOneMore(s: Slave, d: Direction, at: nat, fs: seq<Fmmu>, f: Fmmu, group: nat, base: nat)
    requires at + |fs| < |s.fmmu|
    ensures var t := Entered(s, d, at, fs, group, base);
            Entered(s, d, at, fs + [f], group, base)
            == Located(t.(fmmu := t.fmmu[at + |fs| := f]), d, f, group, base)
  {
    var t := Entered(s, d, at, fs, group, base);
    assert WriteAt(s.fmmu, at, fs + [f]) == t.fmmu[at + |fs| := f];
  }

  /** Search for the next sync manager of the right kind. */
  method FindSm(a: Area, c: nat) returns (r: nat)
    requires a.Valid() && c < MAX_SM
    ensures r == NextSm(a, c)
  {
    r := c;
    while r < MAX_SM - 1 && a.sm[r].kind != a.kind
      invariant c <= r < MAX_SM && NextSm(a, r) == NextSm(a, c)
      decreases MAX_SM - r
    {
      r := r + 1;
    }
  }

  /** The sync managers of one pass: the first one found and all that lie directly behind it. */
  method TakePass(a: Area, c: nat, byteCount: nat) returns (first: nat, smc: nat, count: nat)
    requires a.Valid() && c < MAX_SM
    ensures first == NextSm(a, c) && (smc, count) == Pass(a, c, byteCount)
  {
    hide NextSm, EndAddr;
    first := FindSm(a, c);
    smc := first;
    count := byteCount + a.sm[smc].length;
    var endAddr := EndAddr(a.sm[smc]);
    ghost var goal := Gather(a, smc, count);
    while 8 * count < a.bits && smc < MAX_SM - 1
      invariant smc < MAX_SM && endAddr == EndAddr(a.sm[smc]) && Gather(a, smc, count) == goal
      decreases MAX_SM - smc
    {
      var next := FindSm(a, smc + 1);
      // address gap: the next sync manager needs an FMMU of its own
      if a.sm[next].start > endAddr {
        smc := next;
        return;
      }
      smc := next;
      count := count + a.sm[smc].length;
      endAddr := EndAddr(a.sm[smc]);
    }
  }

  /** The FMMU for a slave of seven bits or less, and where the cursor stands after it. */
  method MapBits(a: Area, first: nat, logAddr0: nat, bitPos0: nat) returns (f: Fmmu, logAddr: nat, bitPos: nat)
    requires a.Valid() && 0 < a.bits <= 7 && bitPos0 <= 7 && first == NextSm(a, 0)
    ensures [f] == Fmmus(a, 8 * logAddr0 + bitPos0) && f.logLength >= 1
    ensures bitPos <= 7 && 8 * logAddr + bitPos == End(a, 8 * logAddr0 + bitPos0)
  {
    hide NextSm, Filled;
    logAddr, bitPos := logAddr0, bitPos0;
    bitPos := bitPos + a.bits - 1;
    if bitPos > 7 {
      logAddr := logAddr + 1;
      bitPos := bitPos - 8;
    }
    var size := logAddr - logAddr0 + 1;
    f := Fmmu(logAddr0, size, bitPos0, bitPos, a.sm[first].start, FmmuType(a), true);
    bitPos := bitPos + 1;
    if bitPos > 7 {
      logAddr := logAddr + 1;
      bitPos := bitPos - 8;
    }
  }

  /** The number of bytes one pass maps for a byte-oriented slave. */
  method PassSize(byteCount: nat, done: nat, bytes: nat) returns (size: nat)
    requires done <= bytes
    ensures size == Min(byteCount, bytes - done)
  {
    size := byteCount;
    if size + done > bytes {
      size := bytes - done;
    }
  }

  lemma {:induction false} FillStep(a: Area, c: nat, count: nat, done: nat, logAddr: nat, next: nat, n: nat)
    requires a.Valid() && c < MAX_SM - 1 && done < a.bytes && (next, n) == Pass(a, c, count)
    ensures var size := Min(n, a.bytes - done);
            && Fill(a, c, count, done, logAddr)
               == [Fmmu(logAddr, size, 0, 7, a.sm[NextSm(a, c)].start, FmmuType(a), IsActive(a, size))]
                  + Fill(a, next, n, done + size, logAddr + size)
            && Filled(a, c, count, done) == Filled(a, next, n, done + size)
  {
    hide NextSm, Pass;
  }

  lemma {:induction false} FillEnd(a: Area, c: nat, count: nat, done: nat, logAddr: nat)
    requires a.Valid() && c < MAX_SM && done <= a.bytes && (c == MAX_SM - 1 || done == a.bytes)
    ensures Fill(a, c, count, done, logAddr) == [] && Filled(a, c, count, done) == done
  {
  }

  lemma {:induction false} ActiveOneMore(fs: seq<Fmmu>, f: Fmmu)
    ensures ActiveCount(fs + [f]) == ActiveCount(fs) + (if f.active then 1 else 0)
  {
    if fs != [] {
      assert (fs + [f])[1..] == fs[1..] + [f];
      ActiveOneMore(fs[1..], f);
    }
  }

  /** The end of each pass: enter the FMMU, count it if it is programmed, and note where the data of
      the slave starts. */
  method ProgramFmmu(slavelist: array<Slave>, slave: nat, d: Direction, group: nat, base: nat, fmmuc: nat, f: Fmmu,
                     wkc0: nat)
    returns (wkc: nat)
    requires slave < slavelist.Length && fmmuc < |slavelist[slave].fmmu|
    modifies slavelist
    ensures slavelist[..] == old(slavelist[..])[slave := Located(
              old(slavelist[slave].(fmmu := slavelist[slave].fmmu[fmmuc := f])), d, f, group, base)]
    ensures wkc == wkc0 + (if f.active then 1 else 0)
  {
    var s := slavelist[slave];
    slavelist[slave] := s.(fmmu := s.fmmu[fmmuc := f]);
    wkc := wkc0;
    if f.active {
      wkc := wkc + 1;
    }
    slavelist[slave] := Located(slavelist[slave], d, f, group, base);
  }

  /** The passes over a byte-oriented slave. */
  method MapBytes(slavelist: array<Slave>, slave: nat, d: Direction, group: nat, base: nat, fmmuc0: nat, logAddr0: nat,
                  wkc0: nat)
    returns (fmmuc: nat, logAddr: nat, wkc: nat)
    requires slave < slavelist.Length && WellFormed(slavelist[slave])
    requires Bits(slavelist[slave], d) > 7 && Bytes(slavelist[slave], d) == BytesFor(Bits(slavelist[slave], d))
    requires fmmuc0 + |Fill(DataOf(slavelist[slave], d), 0, 0, 0, logAddr0)| <= MAX_FMMU
    modifies slavelist
    ensures var a := old(DataOf(slavelist[slave], d)); var fs := Fill(a, 0, 0, 0, logAddr0);
            && slavelist[..] == old(slavelist[..])[slave := Entered(old(slavelist[slave]), d, fmmuc0, fs, group, base)]
            && fmmuc == fmmuc0 + |fs|
            && logAddr == logAddr0 + Filled(a, 0, 0, 0)
            && wkc == wkc0 + ActiveCount(fs)
  {
    hide NextSm, Pass, Fill, Filled, Located, Entered;
    ghost var s0, fs: seq<Fmmu> := slavelist[..], [];
    var a, bytes := DataOf(slavelist[slave], d), Bytes(slavelist[slave], d);
    fmmuc, logAddr, wkc := fmmuc0, logAddr0, wkc0;
    var smc: nat, byteCount: nat, done: nat := 0, 0, 0;
    ghost var goal, total := Fill(a, 0, 0, 0, logAddr0), Filled(a, 0, 0, 0);
    EnterNothing(s0[slave], d, fmmuc0, group, base);
    while smc < MAX_SM - 1 && done < (a.bits + 7) / 8
      invariant smc < MAX_SM && done <= a.bytes && logAddr == logAddr0 + done
      invariant goal == fs + Fill(a, smc, byteCount, done, logAddr)
      invariant total == Filled(a, smc, byteCount, done)
      invariant fmmuc == fmmuc0 + |fs| && wkc == wkc0 + ActiveCount(fs)
      invariant |s0[slave].fmmu| == MAX_FMMU && fmmuc0 + |goal| <= MAX_FMMU
      invariant slavelist[..] == s0[slave := Entered(s0[slave], d, fmmuc0, fs, group, base)]
      decreases MAX_SM - smc, a.bytes - done
    {
      var first, next, count := TakePass(a, smc, byteCount);
      var size := PassSize(count, done, bytes);
      FillStep(a, smc, byteCount, done, logAddr, next, count);
      assert |fs| < |goal|;
      var f := Fmmu(logAddr, size, 0, 7, a.sm[first].start, FmmuType(a), IsActive(a, size));
      EnterOneMore(s0[slave], d, fmmuc0, fs, f, group, base);
      ActiveOneMore(fs, f);
      wkc := ProgramFmmu(slavelist, slave, d, group, base, fmmuc, f, wkc);
      fs := fs + [f];
      smc, byteCount, done, logAddr, fmmuc := next, count, done + size, logAddr + size, fmmuc + 1;
    }
    FillEnd(a, smc, byteCount, done, logAddr);
    assert fs == goal;
  }

  lemma {:induction false} EnterNothing(s: Slave, d: Direction, at: nat, group: nat, base: nat)
    requires at <= |s.fmmu|
    ensures Entered(s, d, at, [], group, base) == s
  {
    assert WriteAt(s.fmmu, at, []) == s.fmmu;
  }

  /** The single pass over a bit-oriented slave: it maps at least one byte, which is all there is. */
  method MapFewBits(slavelist: array<Slave>, slave: nat, d: Direction, group: nat, base: nat, fmmuc0: nat,
                    logAddr0: nat, bitPos0: nat, wkc0: nat)
    returns (fmmuc: nat, logAddr: nat, bitPos: nat, wkc: nat)
    requires slave < slavelist.Length && WellFormed(slavelist[slave]) && bitPos0 <= 7
    requires 0 < Bits(slavelist[slave], d) <= 7
    requires fmmuc0 + |Fmmus(DataOf(slavelist[slave], d), 8 * logAddr0 + bitPos0)| <= MAX_FMMU
    modifies slavelist
    ensures var a := old(DataOf(slavelist[slave], d)); var fs := Fmmus(a, 8 * logAddr0 + bitPos0);
            && slavelist[..] == old(slavelist[..])[slave := Entered(old(slavelist[slave]), d, fmmuc0, fs, group, base)]
            && fmmuc == fmmuc0 + |fs|
            && bitPos <= 7 && 8 * logAddr + bitPos == End(a, 8 * logAddr0 + bitPos0)
            && wkc == wkc0 + ActiveCount(fs)
  {
    hide NextSm, Fill, Filled, Located, Entered, Pass;
    ghost var s := slavelist[slave];
    var a := DataOf(slavelist[slave], d);
    var first, next, count := TakePass(a, 0, 0);
    var f: Fmmu;
    f, logAddr, bitPos := MapBits(a, first, logAddr0, bitPos0);
    EnterNothing(s, d, fmmuc0, group, base);
    EnterOneMore(s, d, fmmuc0, [], f, group, base);
    ActiveOneMore([], f);
    assert [] + [f] == [f];
    wkc := ProgramFmmu(slavelist, slave, d, group, base, fmmuc0, f, wkc0);
    fmmuc := fmmuc0 + 1;
  }

  /** The search for a free FMMU before the inputs of a slave with outputs are mapped. */
  method FindFreeFmmu(s: Slave, d: Direction) returns (fmmuc: nat)
    requires WellFormed(s)
    ensures fmmuc == FirstFmmu(s, d)
    ensures if d.Outputs? || s.obits == 0 then fmmuc == s.fmmuUnused
            else s.fmmuUnused <= fmmuc && (forall j :: s.fmmuUnused <= j < fmmuc ==> s.fmmu[j].logStart != 0)
                   && (fmmuc < |s.fmmu| ==> s.fmmu[fmmuc].logStart == 0)
  {
    fmmuc := s.fmmuUnused;
    if d.Inputs? && s.obits > 0 {
      while fmmuc < |s.fmmu| && s.fmmu[fmmuc].logStart != 0
        invariant s.fmmuUnused <= fmmuc <= |s.fmmu| && FirstFree(s.fmmu, fmmuc) == FirstFree(s.fmmu, s.fmmuUnused)
        invariant forall j :: s.fmmuUnused <= j < fmmuc ==> s.fmmu[j].logStart != 0
      {
        fmmuc := fmmuc + 1;
      }
    }
  }

  /** What a slave must be like to be mapped: its byte count fits its bit count, and its FMMU table
      has room for all entries that the mapping needs. */
  ghost predicate CanMap(s: Slave, d: Direction, cursor: nat) {
    && WellFormed(s) && Bits(s, d) > 0 && Bytes(s, d) == BytesFor(Bits(s, d))
    && FirstFmmu(s, d) + |Fmmus(DataOf(s, d), cursor)| <= MAX_FMMU
  }

  /** ecx_config_create_output_mappings and ecx_config_create_input_mappings: the FMMUs of one slave
      in one direction, starting where the cursor (byte `logAddr0`, bit `bitPos0`) stands. */
  method CreateMapping(slavelist: array<Slave>, slave: nat, d: Direction, group: nat, base: nat, logAddr0: nat,
                       bitPos0: nat, wkc0: nat)
    returns (logAddr: nat, bitPos: nat, wkc: nat)
    requires slave < slavelist.Length && bitPos0 <= 7 && CanMap(slavelist[slave], d, 8 * logAddr0 + bitPos0)
    modifies slavelist
    ensures var s := old(slavelist[slave]); var cursor := 8 * logAddr0 + bitPos0;
            && slavelist[..] == old(slavelist[..])[slave := Mapped(s, d, cursor, group, base)]
            && bitPos <= 7 && 8 * logAddr + bitPos == End(DataOf(s, d), cursor)
            && wkc == wkc0 + ActiveCount(Fmmus(DataOf(s, d), cursor))
  {
    hide *;
    ghost var s0, cursor := slavelist[slave], 8 * logAddr0 + bitPos0;
    AreaSize(s0, d, cursor);
    var fmmuc := FindFreeFmmu(slavelist[slave], d);
    if Bytes(slavelist[slave], d) == 0 {
      fmmuc, logAddr, bitPos, wkc := MapFewBits(slavelist, slave, d, group, base, fmmuc, logAddr0, bitPos0, wkc0);
    } else {
      logAddr := if bitPos0 > 0 then logAddr0 + 1 else logAddr0;
      fmmuc, logAddr, wkc := MapBytes(slavelist, slave, d, group, base, fmmuc, logAddr, wkc0);
      bitPos := 0;
    }
    MappedIs(s0, d, cursor, group, base);
    slavelist[slave] := slavelist[slave].(fmmuUnused := fmmuc);
  }

  lemma {:induction false} AreaSize(s: Slave, d: Direction, cursor: nat)
    requires CanMap(s, d, cursor)
    ensures WellFormed(s) && Bytes(s, d) == BytesFor(Bits(s, d)) && DataOf(s, d).bits == Bits(s, d) > 0
    ensures Bytes(s, d) == 0 <==> Bits(s, d) <= 7
    ensures FirstFmmu(s, d) + |Fmmus(DataOf(s, d), cursor)| <= MAX_FMMU
    ensures Bits(s, d) > 7 ==>
              && Fmmus(DataOf(s, d), cursor)
                 == Fill(DataOf(s, d), 0, 0, 0, if cursor % 8 > 0 then cursor / 8 + 1 else cursor / 8)
              && End(DataOf(s, d), cursor)
                 == 8 * ((if cursor % 8 > 0 then cursor / 8 + 1 else cursor / 8) + Filled(DataOf(s, d), 0, 0, 0))
  {
    hide Fill, Filled, NextSm;
  }

  lemma {:induction false} MappedIs(s: Slave, d: Direction, cursor: nat, group: nat, base: nat)
    requires CanMap(s, d, cursor)
    ensures var fs := Fmmus(DataOf(s, d), cursor);
            Mapped(s, d, cursor, group, base)
            == Entered(s, d, FirstFmmu(s, d), fs, group, base).(fmmuUnused := FirstFmmu(s, d) + |fs|)
  {
    hide Fmmus, Entered;
  }
}
