/** What the FMMUs that the mapper has programmed make a slave do with a datagram. */
module FmmuWindows {
  import opened Numbers
  import opened FmmuMapping
  import opened ProcessImage
  import opened ImageLayout
  import W = Wire

  /** An FMMU of type 1 lets the master read, one of type 2 lets it write. */
  const READ_TYPE := 1
  const WRITE_TYPE := 2

  /** An FMMU covers bit `x` of the logical image. */
  predicate Spans(f: Fmmu, x: nat) { BitStart(f) <= x < BitEnd(f) }

  predicate MapsBitAt(f: Fmmu, fmmutype: nat, x: nat) { f.active && f.fmmutype == fmmutype && Spans(f, x) }

  /** Some active FMMU of a slave maps bit `x` of the logical image for reading, or for writing. */
  ghost predicate MapsBit(table: seq<Fmmu>, fmmutype: nat, x: nat) {
    exists j :: 0 <= j < |table| && MapsBitAt(table[j], fmmutype, x)
  }

  /** The windows that a slave has on the bus are those of its FMMUs. */
  ghost predicate Follows(w: W.Slave, table: seq<Fmmu>) {
    && (forall x: nat :: W.Covers(w.outStart, w.outLen, x) <==> MapsBit(table, WRITE_TYPE, x))
    && (forall x: nat :: W.Covers(w.inStart, w.inLen, x) <==> MapsBit(table, READ_TYPE, x))
    && |w.input| == w.inLen
  }

  /** A slave of the list as the bus sees it. One that is not in the group is not concerned by its image. */
  ghost predicate OnBus(w: W.Slave, t: Slave, group: nat) {
    if InGroup(t, group) then Follows(w, t.fmmu) else w.outLen == w.inLen == |w.input| == 0
  }

  /** All slaves of a list, which begins with the master. */
  ghost predicate AllOnBus(ws: seq<W.Slave>, list: seq<Slave>, group: nat) {
    |ws| == |list| - 1 && forall j {:trigger ws[j]} :: 0 <= j < |ws| ==> OnBus(ws[j], list[j + 1], group)
  }

  /** No FMMU of the slaves of a group is in use. */
  ghost predicate Idle(s: seq<Slave>, group: nat) {
    forall k {:trigger s[k]} :: 1 <= k < |s| && InGroup(s[k], group) ==> Spare(s[k].fmmu, 0)
  }

  /** The FMMUs from index `c` on are not in use. */
  ghost predicate Spare(table: seq<Fmmu>, c: nat) {
    forall j {:trigger table[j]} :: c <= j < |table| ==> !table[j].active
  }

  function TypeFor(d: Direction): nat { if d.Outputs? then WRITE_TYPE else READ_TYPE }

  /** Consecutive windows cover what lies between their two ends. */
  lemma {:induction false} PartitionSpans(fs: seq<Fmmu>, from: int, to: int, x: nat)
    requires Partition(fs, from, to) && forall j {:trigger fs[j]} :: 0 <= j < |fs| ==> BitStart(fs[j]) <= BitEnd(fs[j])
    ensures from <= to && ((exists j :: 0 <= j < |fs| && Spans(fs[j], x)) <==> from <= x < to)
  {
    hide BitStart, BitEnd;
    if fs != [] {
      var rest := fs[1..];
      assert forall j :: 0 <= j < |rest| ==> rest[j] == fs[j + 1];
      PartitionSpans(rest, BitEnd(fs[0]), to, x);
      if j :| 0 <= j < |fs| && Spans(fs[j], x) {
        assert j > 0 ==> Spans(rest[j - 1], x);
      }
      if j :| 0 <= j < |rest| && Spans(rest[j], x) {
        assert Spans(fs[j + 1], x);
      }
      if BitStart(fs[0]) <= x < BitEnd(fs[0]) {
        assert Spans(fs[0], x);
      }
    }
  }

  /** An FMMU that the mapper makes for outputs writes and is active, one that it makes for inputs reads and is active
      exactly if it covers something. It maps a sync manager of the right kind, or else the last one of all. */
  ghost predicate MadeFor(f: Fmmu, a: Area) {
    && f.fmmutype == (if a.kind == 3 then WRITE_TYPE else READ_TYPE)
    && BitStart(f) <= BitEnd(f) && (f.active <==> a.kind == 3 || BitStart(f) < BitEnd(f))
    && exists c :: 0 <= c < |a.sm| && f.physStart == a.sm[c].start && (a.sm[c].kind == a.kind || c == MAX_SM - 1)
  }

  ghost predicate AllMadeFor(fs: seq<Fmmu>, a: Area) {
    forall j {:trigger fs[j]} :: 0 <= j < |fs| ==> MadeFor(fs[j], a)
  }

  lemma {:induction false} FillMade(a: Area, c: nat, count: nat, done: nat, logAddr: nat)
    requires a.Valid() && c < MAX_SM && done <= a.bytes
    ensures AllMadeFor(Fill(a, c, count, done, logAddr), a)
    decreases MAX_SM - c, a.bytes - done
  {
    hide Pass;
    if c < MAX_SM - 1 && done < a.bytes {
      var (next, n) := Pass(a, c, count);
      var size := Min(n, a.bytes - done);
      FillMade(a, next, n, done + size, logAddr + size);
      FillStep(a, c, count, done, logAddr, next, n);
      assert a.sm[NextSm(a, c)].kind == a.kind || NextSm(a, c) == MAX_SM - 1;
    }
  }

  lemma {:induction false} FmmusMade(a: Area, cursor: nat)
    requires a.Valid()
    ensures AllMadeFor(Fmmus(a, cursor), a)
  {
    hide Fill;
    if a.bits > 7 {
      FillMade(a, 0, 0, 0, (cursor + 7) / 8);
    } else if a.bits > 0 {
      assert a.sm[NextSm(a, 0)].kind == a.kind || NextSm(a, 0) == MAX_SM - 1;
    }
  }

  /** The FMMUs of one direction of a slave map its interval, and map it in that direction only. */
  lemma {:induction false} FmmusMap(s: Slave, d: Direction, cursor: nat, fmmutype: nat, x: nat)
    requires WellFormed(s)
    ensures var a := DataOf(s, d);
            MapsBit(Fmmus(a, cursor), fmmutype, x) <==> fmmutype == TypeFor(d) && Start(a, cursor) <= x < End(a, cursor)
  {
    hide Fmmus, BitStart, BitEnd, Start, End;
    var a := DataOf(s, d);
    var fs := Fmmus(a, cursor);
    FmmusMade(a, cursor);
    FmmusPartition(a, cursor);
    PartitionSpans(fs, Start(a, cursor), End(a, cursor), x);
    forall j | 0 <= j < |fs| ensures MapsBitAt(fs[j], fmmutype, x) <==> fmmutype == TypeFor(d) && Spans(fs[j], x) {
      assert MadeFor(fs[j], a);
    }
  }

  /** Entries that are written over others which are not in use. */
  lemma {:induction false} WrittenMap(table: seq<Fmmu>, at: nat, fs: seq<Fmmu>, fmmutype: nat, x: nat)
    requires at + |fs| <= |table| && Spare(table, at)
    ensures MapsBit(WriteAt(table, at, fs), fmmutype, x) <==> MapsBit(table, fmmutype, x) || MapsBit(fs, fmmutype, x)
    ensures Spare(WriteAt(table, at, fs), at + |fs|)
  {
    hide Spans;
    var r := WriteAt(table, at, fs);
    if j :| 0 <= j < |r| && MapsBitAt(r[j], fmmutype, x) {
      assert at <= j < at + |fs| ==> r[j] == fs[j - at];
    }
    if j :| 0 <= j < |table| && MapsBitAt(table[j], fmmutype, x) {
      assert r[j] == table[j];
    }
    if j :| 0 <= j < |fs| && MapsBitAt(fs[j], fmmutype, x) {
      assert r[at + j] == fs[j];
    }
  }

  /** After one direction of a slave has been mapped, it maps what it mapped before and its interval. */
  lemma {:induction false} MappedMaps(s: Slave, d: Direction, cursor: nat, group: nat, base: nat, fmmutype: nat, x: nat)
    requires CanMap(s, d, cursor) && Spare(s.fmmu, s.fmmuUnused)
    ensures var t := Mapped(s, d, cursor, group, base); var a := DataOf(s, d);
            && Spare(t.fmmu, t.fmmuUnused)
            && (MapsBit(t.fmmu, fmmutype, x) <==>
                MapsBit(s.fmmu, fmmutype, x) || (fmmutype == TypeFor(d) && Start(a, cursor) <= x < End(a, cursor)))
  {
    hide Fmmus, WriteAt, MapsBit, DataOf, Start, End;
    var fs, at := Fmmus(DataOf(s, d), cursor), FirstFmmu(s, d);
    MappedIs(s, d, cursor, group, base);
    assert Mapped(s, d, cursor, group, base).fmmu == WriteAt(s.fmmu, at, fs);
    WrittenMap(s.fmmu, at, fs, fmmutype, x);
    FmmusMap(s, d, cursor, fmmutype, x);
  }

  /** A table with no FMMU in use. */
  lemma {:induction false} IdleMaps(table: seq<Fmmu>, c: nat, fmmutype: nat, x: nat)
    requires Spare(table, 0)
    ensures Spare(table, c) && !MapsBit(table, fmmutype, x)
  {
  }

  /** Windows that cover the same bits are the same. */
  lemma {:induction false} SameWindow(start: nat, len: nat, from: nat, to: nat)
    requires from <= to && forall x: nat :: W.Covers(start, len, x) <==> from <= x < to
    ensures len == to - from && (len > 0 ==> start == from)
  {
    if len > 0 {
      assert W.Covers(start, len, start) && W.Covers(start, len, start + len - 1);
      assert start > 0 ==> !W.Covers(start, len, start - 1);
      assert !W.Covers(start, len, start + len);
    }
    if from < to {
      assert W.Covers(start, len, from) && W.Covers(start, len, to - 1);
    }
  }
}
