/** The offsets that the application publishes for other processes (si_map_sdo, si_PDOassign): they are
    found by adding up byte counts, and must be where the mapper has put the data. */
module PublishedOffsets {
  import opened Memory
  import opened FmmuMapping
  import opened ProcessImage
  import opened ImageLayout
  import opened MapGroup
  import opened ImageProperties
  import D = PdoMap

  /** The byte counts are those of the mapper, and the sync managers cover them. */
  ghost predicate Covered(s: seq<Slave>)
    requires WellFormedList(s)
  {
    forall k, d {:trigger Bytes(s[k], d)} :: 1 <= k < |s| ==>
      && Bytes(s[k], d) == BytesFor(Bits(s[k], d))
      && (Bits(s[k], d) > 7 ==> Cover(DataOf(s[k], d), 0) >= BytesFor(Bits(s[k], d)))
  }

  /** No slave before `k` has one to seven bits in the given direction, for which it has no byte count. */
  ghost predicate NoBitsBefore(s: seq<Slave>, d: Direction, k: nat)
    requires k <= |s|
  {
    forall i {:trigger Bits(s[i], d)} :: 1 <= i < k ==> Bits(s[i], d) == 0 || Bits(s[i], d) > 7
  }

  /** The bytes of all slaves before `k`. */
  function SumBytes(s: seq<Slave>, d: Direction, k: nat): nat
    requires 1 <= k <= |s|
  {
    if k == 1 then 0 else SumBytes(s, d, k - 1) + Bytes(s[k - 1], d)
  }

  /** The sums as the application computes them for a slave. */
  method RunningOffsets(slavelist: array<Slave>, slave: nat) returns (slaveInOffset: nat, slaveOutOffset: nat)
    requires 1 <= slave < slavelist.Length
    ensures slaveInOffset == SumBytes(slavelist[..], Inputs, slave)
    ensures slaveOutOffset == SumBytes(slavelist[..], Outputs, slave)
  {
    slaveInOffset, slaveOutOffset := 0, 0;
    var i := 1;
    while i < slave
      invariant 1 <= i <= slave
      invariant slaveInOffset == SumBytes(slavelist[..], Inputs, i)
      invariant slaveOutOffset == SumBytes(slavelist[..], Outputs, i)
    {
      slaveInOffset := slaveInOffset + slavelist[i].ibytes;
      slaveOutOffset := slaveOutOffset + slavelist[i].obytes;
      i := i + 1;
    }
  }

  lemma {:induction false} CoveredAt(s: seq<Slave>, d: Direction, k: nat)
    requires WellFormedList(s) && Covered(s) && 1 <= k < |s|
    ensures Bytes(s[k], d) == BytesFor(Bits(s[k], d)) && DataOf(s[k], d).bits == Bits(s[k], d)
    ensures Bits(s[k], d) > 7 ==> DataOf(s[k], d).bytes == Bytes(s[k], d) && Cover(DataOf(s[k], d), 0) >= Bytes(s[k], d)
  {
    hide Cover;
    assert Bytes(s[k], d) == BytesFor(Bits(s[k], d));
  }

  /** The bit cursor is never behind the sum of the bytes before it, and just there exactly if no slave before
      it has one to seven bits. */
  lemma {:induction false} CursorIsSum(s: seq<Slave>, d: Direction, start: nat, k: nat)
    requires WellFormedList(s) && Covered(s) && start % 8 == 0 && 1 <= k <= |s|
    ensures Cursor(s, 0, d, start, k) >= start + 8 * SumBytes(s, d, k)
    ensures Cursor(s, 0, d, start, k) == start + 8 * SumBytes(s, d, k) <==> NoBitsBefore(s, d, k)
  {
    hide Covered, NoBitsBefore, Cursor, SumBytes;
    if k > 1 {
      CursorIsSum(s, d, start, k - 1);
      CursorGoesOn(s, d, start, k - 1);
      OneMoreSlave(s, d, k - 1);
    } else {
      NothingBefore(s, d, start);
    }
  }

  lemma {:induction false} NothingBefore(s: seq<Slave>, d: Direction, start: nat)
    requires WellFormedList(s)
    ensures Cursor(s, 0, d, start, 1) == start && SumBytes(s, d, 1) == 0 && NoBitsBefore(s, d, 1)
  {
  }

  lemma {:induction false} OneMoreSlave(s: seq<Slave>, d: Direction, k: nat)
    requires 1 <= k < |s|
    ensures SumBytes(s, d, k + 1) == SumBytes(s, d, k) + Bytes(s[k], d)
    ensures NoBitsBefore(s, d, k + 1) <==> NoBitsBefore(s, d, k) && (Bits(s[k], d) == 0 || Bits(s[k], d) > 7)
  {
    if NoBitsBefore(s, d, k + 1) {
      assert Bits(s[k], d) == Bits(s[k], d);
    }
  }

  /** A slave of bytes rounds the cursor up to a byte and moves it on by them. */
  lemma {:induction false} CursorGoesOn(s: seq<Slave>, d: Direction, start: nat, k: nat)
    requires WellFormedList(s) && Covered(s) && 1 <= k < |s|
    ensures var now, next, bits := Cursor(s, 0, d, start, k), Cursor(s, 0, d, start, k + 1), Bits(s[k], d);
            && Bytes(s[k], d) == BytesFor(bits)
            && next == if bits <= 7 then now + bits else 8 * ((now + 7) / 8 + Bytes(s[k], d))
  {
    hide End, Cover, DataOf, Covered;
    CoveredAt(s, d, k);
    Width(DataOf(s[k], d), Cursor(s, 0, d, start, k));
  }

  /** The first FMMU begins where the data begin. */
  lemma {:induction false} FirstBegins(a: Area, cursor: nat)
    requires a.Valid() && a.bits > 0 && (a.bits > 7 ==> Cover(a, 0) >= a.bytes)
    ensures Fmmus(a, cursor) != [] && BitStart(Fmmus(a, cursor)[0]) == Start(a, cursor)
    ensures a.bits > 7 ==> Fmmus(a, cursor)[0].logStartbit == 0
  {
    hide Cover, Filled, Pass, NextSm;
    Width(a, cursor);
  }

  function Place(s: Slave, d: Direction): Address {
    match d case Outputs => s.outputs case Inputs => s.inputs
  }

  function Other(d: Direction): Direction {
    match d case Outputs => Inputs case Inputs => Outputs
  }

  /** The place of a slave's data in bits from the start of the IOmap. */
  function BitPlace(s: Slave, d: Direction): int
    requires Place(s, d).InMap?
  {
    8 * Place(s, d).offset + match d case Outputs => s.ostartbit case Inputs => s.istartbit
  }

  /** What mapping one direction leaves alone. */
  ghost predicate OthersKept(t: Slave, s: Slave, d: Direction) {
    && Place(t, Other(d)) == Place(s, Other(d)) && t.obytes == s.obytes && t.ibytes == s.ibytes
    && (if d.Outputs? then t.istartbit == s.istartbit else t.ostartbit == s.ostartbit)
  }

  /** Mapping one direction sets where its data lie, if it is not set, and leaves the other direction alone. */
  lemma {:induction false} MappedPlace(s: Slave, d: Direction, cursor: nat, base: nat)
    requires WellFormed(s) && FirstFmmu(s, d) + |Fmmus(DataOf(s, d), cursor)| <= MAX_FMMU
    requires Fmmus(DataOf(s, d), cursor) != []
    ensures var t := Mapped(s, d, cursor, 0, base);
            && (Place(s, d).Null? ==>
                  var f := Fmmus(DataOf(s, d), cursor)[0];
                  Place(t, d) == InMap(f.logStart) && BitPlace(t, d) == BitStart(f))
            && OthersKept(t, s, d)
  {
    hide Fmmus, WriteAt, FirstFmmu, DataOf;
  }

  lemma {:induction false} MappedAt(s: seq<Slave>, d: Direction, start: nat, k: nat)
    requires CanMapAll(s, 0, d, start) && WellFormedList(s) && 1 <= k < |s|
    ensures AllMapped(s, 0, d, start, 0)[k] == Placed(s, 0, d, start, 0, k)
    ensures Takes(s[k], 0, d) ==>
              var cursor := Cursor(s, 0, d, start, k);
              && FirstFmmu(s[k], d) + |Fmmus(DataOf(s[k], d), cursor)| <= MAX_FMMU
              && AllMapped(s, 0, d, start, 0)[k] == Mapped(s[k], d, cursor, 0, 0)
    ensures !Takes(s[k], 0, d) ==> AllMapped(s, 0, d, start, 0)[k] == s[k]
  {
    hide Fmmus, Mapped, Cursor, DataOf, FirstFmmu;
  }

  /** Where the data of slave `k` lie after one direction has been mapped. */
  lemma {:induction false} PlacedAt(s: seq<Slave>, d: Direction, start: nat, k: nat)
    requires CanMapAll(s, 0, d, start) && WellFormedList(s) && Covered(s) && 1 <= k < |s|
    ensures var t := AllMapped(s, 0, d, start, 0);
            && (Bits(s[k], d) > 0 && Place(s[k], d).Null? ==>
                  && Place(t[k], d).InMap? && BitPlace(t[k], d) == From(s, 0, d, start, k)
                  && (Bits(s[k], d) > 7 ==> BitPlace(t[k], d) == 8 * Place(t[k], d).offset))
            && OthersKept(t[k], s[k], d)
  {
    hide Fmmus, Mapped, Cover, SumBytes, Cursor, Covered, CanMapAll, DataOf, MappedBefore, FirstFmmu;
    MappedAt(s, d, start, k);
    CoveredAt(s, d, k);
    if Takes(s[k], 0, d) {
      FirstBegins(DataOf(s[k], d), Cursor(s, 0, d, start, k));
      MappedPlace(s[k], d, Cursor(s, 0, d, start, k), 0);
    }
  }

  lemma {:induction false} CoveredAfter(s: seq<Slave>, t: seq<Slave>)
    requires WellFormedList(s) && WellFormedList(t) && SameData(s, t) && Covered(s)
    requires forall k {:trigger s[k]} :: 1 <= k < |s| ==> t[k].obytes == s[k].obytes && t[k].ibytes == s[k].ibytes
    ensures Covered(t)
    ensures forall d, k {:trigger SumBytes(t, d, k)} :: 1 <= k <= |s| ==> SumBytes(t, d, k) == SumBytes(s, d, k)
    ensures forall d, k :: 0 <= k <= |s| ==> (NoBitsBefore(t, d, k) <==> NoBitsBefore(s, d, k))
  {
    hide Cover, SumBytes;
    forall k, d | 1 <= k < |t|
      ensures Bytes(t[k], d) == Bytes(s[k], d) && Bits(t[k], d) == Bits(s[k], d) && DataOf(t[k], d) == DataOf(s[k], d)
    {
      assert s[k] == s[k];
    }
    forall d, k | 1 <= k <= |s| ensures SumBytes(t, d, k) == SumBytes(s, d, k) {
      SameSum(s, t, d, k);
    }
  }

  lemma {:induction false} SameSum(s: seq<Slave>, t: seq<Slave>, d: Direction, k: nat)
    requires |s| == |t| && 1 <= k <= |s|
    requires forall i {:trigger s[i]} :: 1 <= i < |s| ==> t[i].obytes == s[i].obytes && t[i].ibytes == s[i].ibytes
    ensures SumBytes(t, d, k) == SumBytes(s, d, k)
  {
    if k > 1 {
      SameSum(s, t, d, k - 1);
      assert s[k - 1] == s[k - 1];
    }
  }

  /** The list after the outputs have been mapped. */
  lemma {:induction false} AfterOutputs(s: seq<Slave>)
    requires CanMapGroup(s, 0, 0) && WellFormedList(s) && Covered(s)
    ensures var t := AllMapped(s, 0, Outputs, 0, 0);
            && WellFormedList(t) && SameData(s, t) && Covered(t) && CanMapAll(t, 0, Inputs, Middle(s, 0, 0))
            && (forall d, k {:trigger SumBytes(t, d, k)} :: 1 <= k <= |s| ==> SumBytes(t, d, k) == SumBytes(s, d, k))
            && forall d, k :: 0 <= k <= |s| ==> (NoBitsBefore(t, d, k) <==> NoBitsBefore(s, d, k))
  {
    hide CanMapAll, AllMapped, Covered, SumBytes, EndOf, NoBitsBefore, From;
    CanMapParts(s, 0, 0);
    MappingKeepsData(s, 0, Outputs, 0, 0);
    var t := AllMapped(s, 0, Outputs, 0, 0);
    forall k | 1 <= k < |s| ensures t[k].obytes == s[k].obytes && t[k].ibytes == s[k].ibytes {
      PlacedAt(s, Outputs, 0, k);
    }
    CoveredAfter(s, t);
  }

  /** The data of a slave begin at the sum of the bytes before exactly if no slave before has one to seven
      bits. */
  lemma {:induction false} BeginsAtSum(s: seq<Slave>, d: Direction, start: nat, k: nat)
    requires WellFormedList(s) && Covered(s) && start % 8 == 0 && 1 <= k < |s|
    ensures From(s, 0, d, start, k) >= start + 8 * SumBytes(s, d, k)
    ensures From(s, 0, d, start, k) == start + 8 * SumBytes(s, d, k) <==> NoBitsBefore(s, d, k)
  {
    hide Cover, DataOf, Covered, Cursor, NoBitsBefore;
    CursorIsSum(s, d, start, k);
    CoveredAt(s, d, k);
  }

  /** In the completely mapped list, the sum of the byte counts before a slave, which is what the application
      publishes, is never behind where its data begin, counted from the start in the master's record; it is
      just there, to the bit, exactly if no slave before has one to seven bits in that direction. */
  lemma {:induction false} OffsetsAgreeIff(s: seq<Slave>, grp: Group, k: nat, d: Direction)
    requires CanMapGroup(s, 0, 0) && Describes(grp, s, 0, 0) && WellFormedList(s) && Covered(s)
    requires 1 <= k < |s| && Bits(s[k], d) > 0 && s[k].outputs.Null? && s[k].inputs.Null?
    ensures var t := FullyMapped(s, 0, 0); var master := MasterRecord(s[0], 0, grp.Obytes, grp.Ibytes);
            && Place(t[k], d).InMap? && Place(master, d).InMap? && SumBytes(t, d, k) == SumBytes(s, d, k)
            && (Bits(s[k], d) > 7 ==> BitPlace(t[k], d) == 8 * Place(t[k], d).offset)
            && var begin := BitPlace(t[k], d) - 8 * Place(master, d).offset;
            begin >= 8 * SumBytes(s, d, k) && (begin == 8 * SumBytes(s, d, k) <==> NoBitsBefore(s, d, k))
  {
    hide CanMapAll, CanMapGroup, AllMapped, Covered, SumBytes, EndOf, AllBlocks, Increments, WellFormedList, SameData,
         NoBitsBefore, From;
    CanMapParts(s, 0, 0);
    AfterOutputs(s);
    var t := AllMapped(s, 0, Outputs, 0, 0);
    var middle := Middle(s, 0, 0);
    PlacedAt(s, Outputs, 0, k);
    MiddleIsWhole(s, 0, 0);
    PlacedAt(t, Inputs, middle, k);
    SameBitsAt(s, t, k);
    AfterInputs(t, middle, d, k);
    BeginsAtSum(s, Outputs, 0, k);
    BeginsAtSum(t, Inputs, middle, k);
  }

  lemma {:induction false} SameBitsAt(s: seq<Slave>, t: seq<Slave>, k: nat)
    requires SameData(s, t) && 1 <= k < |s|
    ensures |t| == |s| && t[k].obits == s[k].obits && t[k].ibits == s[k].ibits
  {
  }

  lemma {:induction false} AfterInputs(t: seq<Slave>, start: nat, d: Direction, k: nat)
    requires CanMapAll(t, 0, Inputs, start) && WellFormedList(t) && Covered(t) && 1 <= k <= |t|
    ensures SumBytes(AllMapped(t, 0, Inputs, start, 0), d, k) == SumBytes(t, d, k)
  {
    hide CanMapAll, AllMapped, Covered, SumBytes, WellFormedList, From;
    var u := AllMapped(t, 0, Inputs, start, 0);
    MappingKeepsData(t, 0, Inputs, start, 0);
    forall i {:trigger t[i]} | 1 <= i < |t| ensures u[i].obytes == t[i].obytes && u[i].ibytes == t[i].ibytes {
      PlacedAt(t, Inputs, start, i);
    }
    SameSum(t, u, d, k);
  }
}
