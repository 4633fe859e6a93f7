/** The memory of a slave that its FMMUs map: that of the sync managers with its process data. */
module FmmuMemory {
  import opened Numbers
  import opened FmmuMapping

  /** A sync manager of the right kind. */
  predicate Matches(a: Area, i: nat)
    requires |a.sm| == MAX_SM
  {
    i < MAX_SM && a.sm[i].kind == a.kind
  }

  /** The sync managers of the right kind lie in memory in the order of their numbers, without overlap, in the
      64 KiB of a slave. The last one of all, at which the search ends, is one of them or not used. */
  ghost predicate Ascending(a: Area) {
    && |a.sm| == MAX_SM && (Matches(a, 7) || a.sm[7].length == 0)
    && (forall i {:trigger a.sm[i]} :: 0 <= i < MAX_SM ==> a.sm[i].start + a.sm[i].length < 0x1_0000)
    && forall i: nat, j: nat {:trigger Matches(a, i), Matches(a, j)} :: i < j && Matches(a, i) && Matches(a, j) ==>
         a.sm[i].start + a.sm[i].length <= a.sm[j].start
  }

  /** Address `x` lies in one of them. */
  ghost predicate InMemory(a: Area, x: nat)
    requires |a.sm| == MAX_SM
  {
    exists i: nat {:trigger Matches(a, i)} :: Matches(a, i) && a.sm[i].start <= x < a.sm[i].start + a.sm[i].length
  }

  ghost predicate AllInMemory(a: Area, from: nat, to: int)
    requires |a.sm| == MAX_SM
  {
    forall x: nat :: from <= x < to ==> InMemory(a, x)
  }

  /** Every FMMU maps memory of such sync managers only. */
  ghost predicate MapsMemory(a: Area, fs: seq<Fmmu>)
    requires |a.sm| == MAX_SM
  {
    forall j {:trigger fs[j]} :: 0 <= j < |fs| ==> AllInMemory(a, fs[j].physStart, fs[j].physStart + fs[j].logLength)
  }

  /** A sync manager at which the search can end. */
  predicate Found(a: Area, i: nat)
    requires |a.sm| == MAX_SM
  {
    Matches(a, i) || (i == 7 && a.sm[7].length == 0)
  }

  lemma {:induction false} NextIsFound(a: Area, c: nat)
    requires a.Valid() && Ascending(a) && c < MAX_SM
    ensures Found(a, NextSm(a, c)) && NextSm(a, c) >= c
  {
  }

  lemma {:induction false} OneSm(a: Area, i: nat)
    requires a.Valid() && Found(a, i)
    ensures AllInMemory(a, a.sm[i].start, a.sm[i].start + a.sm[i].length)
  {
  }

  /** The sync managers taken together with `c` lie directly behind it. */
  lemma {:induction false} GatherIsContiguous(a: Area, c: nat, count: nat)
    requires a.Valid() && Ascending(a) && Matches(a, c)
    ensures var end := a.sm[c].start + a.sm[c].length;
            AllInMemory(a, end, end + Gather(a, c, count).1 - count)
    decreases MAX_SM - c, 0
  {
    hide NextSm, AllInMemory, Ascending, Gather;
    var end := a.sm[c].start + a.sm[c].length;
    EndIsEnd(a, c);
    Nothing(a, end);
    if 8 * count < a.bits && c < MAX_SM - 1 {
      var n := NextSm(a, c + 1);
      NextIsFound(a, c + 1);
      GatherStep(a, c, count);
      if a.sm[n].start <= end {
        GatherOneMore(a, c, n, count);
      }
    } else {
      GatherEnds(a, c, count);
    }
  }

  lemma {:induction false} GatherOneMore(a: Area, c: nat, n: nat, count: nat)
    requires a.Valid() && Ascending(a) && Matches(a, c) && c < n && Found(a, n)
    requires a.sm[n].start <= a.sm[c].start + a.sm[c].length
    ensures var end := a.sm[c].start + a.sm[c].length;
            AllInMemory(a, end, end + Gather(a, n, count + a.sm[n].length).1 - count)
    decreases MAX_SM - n, 1
  {
    hide NextSm, AllInMemory, Ascending, Gather;
    var end, more := a.sm[c].start + a.sm[c].length, count + a.sm[n].length;
    if Matches(a, n) {
      InOrder(a, c, n);
      GatherIsContiguous(a, n, more);
      OneSm(a, n);
      Joined(a, end, end + a.sm[n].length, end + Gather(a, n, more).1 - count);
    } else {
      GatherEnds(a, n, more);
      Nothing(a, end);
    }
  }

  lemma {:induction false} EndIsEnd(a: Area, c: nat)
    requires a.Valid() && Ascending(a) && c < MAX_SM
    ensures EndAddr(a.sm[c]) == a.sm[c].start + a.sm[c].length
  {
  }

  lemma {:induction false} InOrder(a: Area, i: nat, j: nat)
    requires a.Valid() && Ascending(a) && i < j && Matches(a, i) && Matches(a, j)
    ensures a.sm[i].start + a.sm[i].length <= a.sm[j].start
  {
  }

  lemma {:induction false} Joined(a: Area, from: nat, mid: nat, to: int)
    requires |a.sm| == MAX_SM && AllInMemory(a, from, mid) && AllInMemory(a, mid, to)
    ensures AllInMemory(a, from, to)
  {
    hide InMemory;
  }

  lemma {:induction false} Nothing(a: Area, at: nat)
    requires |a.sm| == MAX_SM
    ensures AllInMemory(a, at, at)
  {
  }

  lemma {:induction false} PassIsContiguous(a: Area, c: nat, count: nat)
    requires a.Valid() && Ascending(a) && c < MAX_SM
    ensures var start := a.sm[NextSm(a, c)].start; AllInMemory(a, start, start + OwnBytes(a, c, count))
  {
    hide NextSm, AllInMemory, Ascending, Gather;
    var first := NextSm(a, c);
    NextIsFound(a, c);
    var start, more := a.sm[first].start, count + a.sm[first].length;
    OneSm(a, first);
    if Matches(a, first) {
      GatherIsContiguous(a, first, more);
      Joined(a, start, start + a.sm[first].length, start + OwnBytes(a, c, count));
    } else {
      GatherEnds(a, first, more);
    }
  }

  lemma {:induction false} Shorter(a: Area, from: nat, to: int, end: int)
    requires |a.sm| == MAX_SM && AllInMemory(a, from, end) && to <= end
    ensures AllInMemory(a, from, to)
  {
    hide InMemory;
  }

  lemma {:induction false} FillMapsMemory(a: Area, c: nat, count: nat, done: nat, logAddr: nat)
    requires a.Valid() && Ascending(a) && c < MAX_SM && done <= a.bytes
    requires LengthsAreRight(a, c, count, done, Fill(a, c, count, done, logAddr))
    ensures MapsMemory(a, Fill(a, c, count, done, logAddr))
    decreases MAX_SM - c, a.bytes - done
  {
    hide Pass, NextSm, AllInMemory, Ascending, Fill;
    if c < MAX_SM - 1 && done < a.bytes {
      FillStart(a, c, count, done, logAddr);
      var (next, n) := Pass(a, c, count);
      var size := Min(n, a.bytes - done);
      var fs := Fill(a, c, count, done, logAddr);
      PassIsContiguous(a, c, count);
      Shorter(a, fs[0].physStart, fs[0].physStart + fs[0].logLength, fs[0].physStart + OwnBytes(a, c, count));
      FillMapsMemory(a, next, n, done + size, logAddr + size);
      forall j | 0 <= j < |fs| ensures AllInMemory(a, fs[j].physStart, fs[j].physStart + fs[j].logLength) {
        if j > 0 {
          assert fs[1..][j - 1] == fs[j];
        }
      }
    } else {
      FillEnds(a, c, count, done, logAddr);
    }
  }

  lemma {:induction false} FillEnds(a: Area, c: nat, count: nat, done: nat, logAddr: nat)
    requires a.Valid() && c < MAX_SM && done <= a.bytes && (c == MAX_SM - 1 || done == a.bytes)
    ensures Fill(a, c, count, done, logAddr) == []
  {
  }

  lemma {:induction false} FillStart(a: Area, c: nat, count: nat, done: nat, logAddr: nat)
    requires a.Valid() && c < MAX_SM - 1 && done < a.bytes
    ensures var (next, n) := Pass(a, c, count); var size := Min(n, a.bytes - done);
            var fs := Fill(a, c, count, done, logAddr);
            && fs != [] && fs[0].logLength == size && fs[0].physStart == a.sm[NextSm(a, c)].start
            && fs[1..] == Fill(a, next, n, done + size, logAddr + size)
  {
    hide Pass, NextSm;
  }

  /** The FMMUs of a byte-oriented slave whose sync managers lie in ascending order map no memory but theirs, if
      two passes are enough. */
  lemma {:induction false} FmmusMapMemory(a: Area, cursor: nat)
    requires a.Valid() && Ascending(a) && a.bits > 7 && TwoPasses(a, 0)
    ensures MapsMemory(a, Fmmus(a, cursor))
  {
    hide Pass, NextSm, Ascending, MapsMemory, Fill, LengthsAreRight, TwoPasses;
    LengthsAreRightIff(a, cursor);
    FillMapsMemory(a, 0, 0, 0, (cursor + 7) / 8);
  }

  /** Sync managers 0 and 1 with four bytes of outputs each, the second one below the first. */
  function Descending(): (a: Area)
    ensures a.Valid()
  {
    AreaOf([Sm(0x1100, 4, 3), Sm(0x1000, 4, 3)] + seq(6, i => Sm(0, 0, 0)), 3, 64)
  }

  /** They are taken for neighbours, because the second one does not begin above the end of the first: one FMMU maps
      eight bytes from the first one on, and the memory of the second one is not mapped. */
  lemma {:induction false} DescendingIsMerged(logAddr: nat)
    ensures var a, fs := Descending(), Fill(Descending(), 0, 0, 0, logAddr);
            |fs| == 1 && fs[0].physStart == 0x1100 && fs[0].logLength == 8 && !InMemory(a, 0x1104)
  {
    var a := Descending();
    assert NextSm(a, 0) == 0 && NextSm(a, 1) == 1;
    assert Gather(a, 0, 4) == (1, 8);
    hide NextSm, Gather;
    assert Pass(a, 0, 0) == (1, 8);
    assert Fill(a, 1, 8, 8, logAddr + 8) == [];
    assert forall i :: 2 <= i < MAX_SM ==> a.sm[i] == Sm(0, 0, 0);
  }
}
