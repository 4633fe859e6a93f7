/** Mapping the sync managers of one slave and direction into the logical process image
    (ecx_config_create_output_mappings, ecx_config_create_input_mappings). */
module FmmuMapping {
  import opened Numbers

  const MAX_SM := 8
  const MAX_FMMU := 4

  /** A sync manager; `kind` is 3 for process outputs and 4 for process inputs. */
  datatype Sm = Sm(start: nat, length: nat, kind: nat)

  /** An FMMU entry. It maps the logical bits from bit `logStartbit` of byte `logStart` to bit
      `logEndbit` of the last of its `logLength` bytes. */
  datatype Fmmu = Fmmu(logStart: nat, logLength: nat, logStartbit: nat, logEndbit: nat,
                       physStart: nat, fmmutype: nat, active: bool)

  function BitStart(f: Fmmu): int { 8 * f.logStart + f.logStartbit }

  function BitEnd(f: Fmmu): int { 8 * (f.logStart + f.logLength - 1) + f.logEndbit + 1 }

  /** The process data of one slave in one direction: `bits` bits, that is `bytes` whole bytes, to be
      found in the sync managers of the given kind. */
  datatype Area = Area(sm: seq<Sm>, kind: nat, bits: nat, bytes: nat) {
    ghost predicate Valid() {
      |sm| == MAX_SM && bits <= 8 * bytes < bits + 8
    }
  }

  /** The area for `bits` bits; the number of bytes is rounded up. */
  function AreaOf(sm: seq<Sm>, kind: nat, bits: nat): (a: Area)
    requires |sm| == MAX_SM
    ensures a.Valid()
  {
    Area(sm, kind, bits, (bits + 7) / 8)
  }

  /** The next sync manager of the right kind from `c` on, or the last one of all. */
  function NextSm(a: Area, c: nat): (r: nat)
    requires a.Valid() && c < MAX_SM
    ensures c <= r < MAX_SM
    ensures r < MAX_SM - 1 ==> a.sm[r].kind == a.kind
    decreases MAX_SM - c
  {
    if c == MAX_SM - 1 || a.sm[c].kind == a.kind then c else NextSm(a, c + 1)
  }

  function EndAddr(s: Sm): nat { (s.start + s.length) % 0x1_0000 }

  /** Collecting sync managers that lie one behind the other, after `c` has been taken and `count`
      bytes have been counted: where the search stands afterwards and the new count. */
  function Gather(a: Area, c: nat, count: nat): (r: (nat, nat))
    requires a.Valid() && c < MAX_SM
    ensures c <= r.0 < MAX_SM && count <= r.1
    ensures r.0 == c ==> r.1 == count && (8 * count >= a.bits || c == MAX_SM - 1)
    decreases MAX_SM - c
  {
    if 8 * count < a.bits && c < MAX_SM - 1 then
      var n := NextSm(a, c + 1);
      if a.sm[n].start > EndAddr(a.sm[c]) then (n, count) else Gather(a, n, count + a.sm[n].length)
    else (c, count)
  }

  /** The sync managers that one pass takes together, starting its search at `c`. */
  function Pass(a: Area, c: nat, count: nat): (r: (nat, nat))
    requires a.Valid() && c < MAX_SM
    ensures c <= r.0 < MAX_SM && count <= r.1
    ensures r.0 == c < MAX_SM - 1 ==> 8 * r.1 >= a.bits
  {
    var first := NextSm(a, c);
    Gather(a, first, count + a.sm[first].length)
  }

  /** The FMMUs of a byte-oriented area: `done` bytes have been mapped and the next go to `logAddr`.
      Each pass either moves on to a later sync manager or finishes the area. */
  function Fill(a: Area, c: nat, count: nat, done: nat, logAddr: nat): (r: seq<Fmmu>)
    requires a.Valid() && c < MAX_SM && done <= a.bytes
    decreases MAX_SM - c, a.bytes - done
  {
    if c == MAX_SM - 1 || done == a.bytes then []
    else
      var (next, n) := Pass(a, c, count);
      var size := Min(n, a.bytes - done);
      [Fmmu(logAddr, size, 0, 7, a.sm[NextSm(a, c)].start, FmmuType(a), IsActive(a, size))]
      + Fill(a, next, n, done + size, logAddr + size)
  }

  function FmmuType(a: Area): nat { if a.kind == 3 then 2 else 1 }

  /** An input FMMU of length zero is not programmed; an output FMMU always is. */
  predicate IsActive(a: Area, size: nat) { a.kind == 3 || size != 0 }

  /** The bytes that the passes map. */
  function Filled(a: Area, c: nat, count: nat, done: nat): (r: nat)
    requires a.Valid() && c < MAX_SM && done <= a.bytes
    ensures done <= r <= a.bytes
    decreases MAX_SM - c, a.bytes - done
  {
    if c == MAX_SM - 1 || done == a.bytes then done
    else
      var (next, n) := Pass(a, c, count);
      Filled(a, next, n, done + Min(n, a.bytes - done))
  }

  /** The bytes offered by matching sync managers from `c` on, the last one of all not counted. */
  function Cover(a: Area, c: nat): nat
    requires a.Valid()
    decreases MAX_SM - c
  {
    if c >= MAX_SM - 1 then 0
    else (if a.sm[c].kind == a.kind then a.sm[c].length else 0) + Cover(a, c + 1)
  }

  /** Where the bit cursor stands before and after an area is mapped at `cursor`: a bit-oriented
      area takes exactly its bits where the cursor is, any other starts at a byte boundary. */
  function Start(a: Area, cursor: nat): nat {
    if a.bits <= 7 then cursor else 8 * ((cursor + 7) / 8)
  }

  function End(a: Area, cursor: nat): (e: nat)
    requires a.Valid()
    ensures Start(a, cursor) <= e && cursor <= e
  {
    if a.bits <= 7 then cursor + a.bits else 8 * ((cursor + 7) / 8 + Filled(a, 0, 0, 0))
  }

  /** The FMMUs of an area mapped at `cursor`. */
  function Fmmus(a: Area, cursor: nat): seq<Fmmu>
    requires a.Valid()
  {
    if a.bits == 0 then []
    else if a.bits <= 7 then
      var last := cursor + a.bits - 1;
      [Fmmu(cursor / 8, last / 8 - cursor / 8 + 1, cursor % 8, last % 8, a.sm[NextSm(a, 0)].start, FmmuType(a), true)]
    else Fill(a, 0, 0, 0, (cursor + 7) / 8)
  }

  /** The windows of the FMMUs follow one another without gap or overlap from bit `from` to bit `to`. */
  ghost predicate Partition(fs: seq<Fmmu>, from: int, to: int) {
    if fs == [] then from == to else BitStart(fs[0]) == from && Partition(fs[1..], BitEnd(fs[0]), to)
  }

  lemma {:induction false} FillPartitions(a: Area, c: nat, count: nat, done: nat, logAddr: nat)
    requires a.Valid() && c < MAX_SM && done <= a.bytes
    ensures Partition(Fill(a, c, count, done, logAddr), 8 * logAddr, 8 * (logAddr + Filled(a, c, count, done) - done))
    decreases MAX_SM - c, a.bytes - done
  {
    hide Pass, NextSm;
    if c < MAX_SM - 1 && done < a.bytes {
      var (next, n) := Pass(a, c, count);
      var size := Min(n, a.bytes - done);
      FillPartitions(a, next, n, done + size, logAddr + size);
      var fs := Fill(a, c, count, done, logAddr);
      assert fs[1..] == Fill(a, next, n, done + size, logAddr + size);
    }
  }

  /** The FMMUs of a slave cut its interval of the image into consecutive windows. */
  lemma {:induction false} FmmusPartition(a: Area, cursor: nat)
    requires a.Valid()
    ensures Partition(Fmmus(a, cursor), Start(a, cursor), End(a, cursor))
  {
    hide Fill, Filled, NextSm;
    if a.bits > 7 {
      FillPartitions(a, 0, 0, 0, (cursor + 7) / 8);
    }
  }

  lemma {:induction false} CoverFromNext(a: Area, c: nat)
    requires a.Valid() && c < MAX_SM
    ensures Cover(a, c) == Cover(a, NextSm(a, c))
    decreases MAX_SM - c
  {
    if c < MAX_SM - 1 && a.sm[c].kind != a.kind {
      CoverFromNext(a, c + 1);
    }
  }

  lemma {:induction false} CoverStep(a: Area, c: nat)
    requires a.Valid() && c < MAX_SM
    ensures c < MAX_SM - 1 && a.sm[c].kind == a.kind ==> Cover(a, c) == a.sm[c].length + Cover(a, c + 1)
    ensures c == MAX_SM - 1 ==> Cover(a, c) == Cover(a, c + 1) == 0
  {
  }

  lemma {:induction false} GatherStep(a: Area, c: nat, count: nat)
    requires a.Valid() && c < MAX_SM - 1 && 8 * count < a.bits
    ensures var m := NextSm(a, c + 1);
            Gather(a, c, count) == if a.sm[m].start > EndAddr(a.sm[c]) then (m, count)
              else Gather(a, m, count + a.sm[m].length)
  {
    hide NextSm, EndAddr;
  }

  lemma {:induction false} GatherEnds(a: Area, c: nat, count: nat)
    requires a.Valid() && c < MAX_SM && (c == MAX_SM - 1 || 8 * count >= a.bits)
    ensures Gather(a, c, count) == (c, count) && (c == MAX_SM - 1 || count >= a.bytes)
  {
  }

  /** The bytes of sync manager `c`, which may be the last one, and all behind it. */
  lemma {:induction false} CoverFrom(a: Area, c: nat)
    requires a.Valid() && c < MAX_SM - 1
    ensures var m := NextSm(a, c + 1);
            Cover(a, c + 1) == Cover(a, m) <= a.sm[m].length + Cover(a, m + 1)
  {
    hide NextSm;
    CoverFromNext(a, c + 1);
  }

  /** No matching byte is lost between the passes, unless enough have been counted already. */
  lemma {:induction false} GatherKeepsCover(a: Area, c: nat, count: nat)
    requires a.Valid() && c < MAX_SM
    ensures var (next, n) := Gather(a, c, count); n + Cover(a, next) >= count + Cover(a, c + 1) || n >= a.bytes
    decreases MAX_SM - c
  {
    hide NextSm, EndAddr, Cover, Gather;
    if 8 * count < a.bits && c < MAX_SM - 1 {
      var m := NextSm(a, c + 1);
      GatherStep(a, c, count);
      CoverFrom(a, c);
      if a.sm[m].start <= EndAddr(a.sm[c]) {
        GatherKeepsCover(a, m, count + a.sm[m].length);
      }
    } else {
      GatherEnds(a, c, count);
      CoverStep(a, c);
    }
  }

  lemma {:induction false} PassKeepsCover(a: Area, c: nat, count: nat, next: nat, n: nat)
    requires a.Valid() && c < MAX_SM - 1 && (next, n) == Pass(a, c, count)
    ensures n + Cover(a, next) >= count + Cover(a, c) || n >= a.bytes
  {
    hide NextSm, Gather;
    var first := NextSm(a, c);
    assert Cover(a, c) == Cover(a, first) by { CoverFromNext(a, c); }
    GatherKeepsCover(a, first, count + a.sm[first].length);
  }

  lemma {:induction false} FilledWhenCovered(a: Area, c: nat, count: nat, done: nat)
    requires a.Valid() && c < MAX_SM && done <= a.bytes
    requires count + Cover(a, c) >= a.bytes && done >= Min(count, a.bytes)
    ensures Filled(a, c, count, done) == a.bytes
    decreases MAX_SM - c, a.bytes - done
  {
    hide Pass;
    if c < MAX_SM - 1 && done < a.bytes {
      var (next, n) := Pass(a, c, count);
      PassKeepsCover(a, c, count, next, n);
      FilledWhenCovered(a, next, n, done + Min(n, a.bytes - done));
    }
  }

  /** How wide the interval of a slave is: exactly its bits if it has seven or fewer; otherwise whole
      bytes, all of them when the matching sync managers before the last one cover them. */
  lemma {:induction false} Width(a: Area, cursor: nat)
    requires a.Valid()
    ensures a.bits <= 7 ==> End(a, cursor) - Start(a, cursor) == a.bits
    ensures a.bits > 7 ==> Start(a, cursor) % 8 == 0 && End(a, cursor) % 8 == 0
    ensures a.bits > 7 ==> End(a, cursor) - Start(a, cursor) <= 8 * a.bytes
    ensures a.bits > 7 && Cover(a, 0) >= a.bytes ==> End(a, cursor) - Start(a, cursor) == 8 * a.bytes
  {
    hide Filled, Cover;
    if a.bits > 7 && Cover(a, 0) >= a.bytes {
      FilledWhenCovered(a, 0, 0, 0);
    }
  }

  /** The bytes of the sync managers that one pass takes, and how many of them its FMMU should map. */
  function OwnBytes(a: Area, c: nat, count: nat): nat
    requires a.Valid() && c < MAX_SM
  {
    Pass(a, c, count).1 - count
  }

  /** The FMMUs `fs` of the passes from `c` on, each as long as the sync managers of its own pass, or as
      what remains of the area. */
  ghost predicate LengthsAreRight(a: Area, c: nat, count: nat, done: nat, fs: seq<Fmmu>)
    requires a.Valid() && c < MAX_SM && done <= a.bytes
    decreases |fs|
  {
    fs == [] ||
    var (next, n) := Pass(a, c, count);
    && fs[0].logLength == Min(OwnBytes(a, c, count), a.bytes - done)
    && done + fs[0].logLength <= a.bytes && LengthsAreRight(a, next, n, done + fs[0].logLength, fs[1..])
  }

  /** At most two passes find sync managers with bytes: the first such pass, or the next one, finishes the
      area or comes to the last sync manager. */
  predicate TwoPasses(a: Area, c: nat)
    requires a.Valid() && a.bits > 7 && c < MAX_SM
    decreases MAX_SM - c
  {
    c == MAX_SM - 1 ||
    var (next, n) := Pass(a, c, 0);
    if n == 0 then TwoPasses(a, next)
    else next == MAX_SM - 1 || n >= a.bytes || Pass(a, next, n).1 >= a.bytes
  }

  /** The byte count is not reset between passes: the FMMUs of an area are as long as the sync managers they
      are for, from the first to the last, exactly if no more than two passes are needed. */
  lemma {:induction false} LengthsAreRightIff(a: Area, cursor: nat)
    requires a.Valid() && a.bits > 7
    ensures LengthsAreRight(a, 0, 0, 0, Fmmus(a, cursor)) <==> TwoPasses(a, 0)
  {
    RightFrom(a, 0, (cursor + 7) / 8);
  }

  lemma {:induction false} RightFrom(a: Area, c: nat, logAddr: nat)
    requires a.Valid() && a.bits > 7 && c < MAX_SM
    ensures LengthsAreRight(a, c, 0, 0, Fill(a, c, 0, 0, logAddr)) <==> TwoPasses(a, c)
    decreases MAX_SM - c
  {
    hide Pass, NextSm;
    if c < MAX_SM - 1 {
      var (next, n) := Pass(a, c, 0);
      var size := Min(n, a.bytes);
      FillFirst(a, c, 0, 0, logAddr);
      if n == 0 {
        RightFrom(a, next, logAddr);
      } else if n < a.bytes && next < MAX_SM - 1 {
        SecondPass(a, next, n, logAddr + n);
      }
    }
  }

  lemma {:induction false} FillFirst(a: Area, c: nat, count: nat, done: nat, logAddr: nat)
    requires a.Valid() && c < MAX_SM - 1 && done < a.bytes
    ensures var (next, n) := Pass(a, c, count); var size := Min(n, a.bytes - done);
            var fs := Fill(a, c, count, done, logAddr);
            fs != [] && fs[0].logLength == size && fs[1..] == Fill(a, next, n, done + size, logAddr + size)
  {
    hide Pass, NextSm;
  }

  /** After a first pass that has mapped all it counted. */
  lemma {:induction false} SecondPass(a: Area, c: nat, count: nat, logAddr: nat)
    requires a.Valid() && c < MAX_SM - 1 && 0 < count < a.bytes
    ensures LengthsAreRight(a, c, count, count, Fill(a, c, count, count, logAddr)) <==> Pass(a, c, count).1 >= a.bytes
  {
    hide Pass, NextSm;
    var (next, n) := Pass(a, c, count);
    FillFirst(a, c, count, count, logAddr);
    if n >= a.bytes {
      assert Min(n, a.bytes - count) == a.bytes - count == Min(OwnBytes(a, c, count), a.bytes - count);
    }
  }

  /** Three sync managers of four bytes each that do not lie one behind the other. */
  function Scattered(): (a: Area)
    ensures a.Valid()
  {
    AreaOf([Sm(0x1000, 4, 3), Sm(0x1100, 4, 3), Sm(0x1200, 4, 3)] + seq(5, i => Sm(0, 0, 0)), 3, 96)
  }

  /** For them the second FMMU maps eight bytes from the second sync manager on, and the third one is
      left out. */
  lemma {:induction false} ScatteredIsWrong(logAddr: nat)
    ensures var fs := Fill(Scattered(), 0, 0, 0, logAddr);
            |fs| == 2 && fs[1].physStart == 0x1100 && fs[1].logLength == 8
  {
    var a := Scattered();
    assert NextSm(a, 0) == 0 && NextSm(a, 1) == 1 && NextSm(a, 2) == 2;
    assert Gather(a, 0, 4) == (1, 4);
    assert Gather(a, 1, 8) == (2, 8);
    hide NextSm, Gather, Scattered;
    assert Pass(a, 0, 0) == (1, 4) && Pass(a, 1, 4) == (2, 8);
    assert Fill(a, 2, 8, 12, logAddr + 12) == [];
    assert Fill(a, 1, 4, 4, logAddr + 4)
           == [Fmmu(logAddr + 4, 8, 0, 7, a.sm[1].start, FmmuType(a), IsActive(a, 8))] + [];
  }
}
