/** The process variables of a slave as the application publishes them (si_PDOassign). */
module PublishedVariables {
  import opened Memory
  import opened PdoMap

  const MAX_PD_NUM := 25

  /** A variable: the object it is, and the bytes where its value lies. */
  datatype PdVar = PdVar(index: nat, subindex: nat, offset: nat, size: nat)

  /** A mapped entry: its object is described in the dictionary unless it is a filler. */
  function BitLength(entry: nat): nat { entry % 256 }
  function SubIndexOf(entry: nat): nat { entry / 256 % 256 }
  function IndexOf(entry: nat): nat { entry / 65536 }

  predicate Known(entry: nat, described: (nat, nat) -> bool) {
    (IndexOf(entry) != 0 || SubIndexOf(entry) != 0) && described(IndexOf(entry), SubIndexOf(entry))
  }

  /** The entries of the first `k` PDOs of a sync manager. */
  function EntriesOf(d: Dictionary, sm: nat, k: nat): seq<nat>
    requires k <= |d.pdos(sm)|
  {
    if k == 0 then []
    else
      var pdo := d.pdos(sm)[k - 1];
      EntriesOf(d, sm, k - 1) + (if pdo > 0 then d.mapped(pdo) else [])
  }

  /** The entry of an object is published with its index, subindex and whole bytes, if it is not the filler and
      the dictionary describes it. */
  lemma {:induction false} ObjectIsPublished(o: Object, described: (nat, nat) -> bool, n: nat, entries: seq<nat>,
                                             mapoffset: nat, bitoffset: nat)
    requires n < |entries| && entries[n] == Entry(o)
    ensures Known(Entry(o), described) <==> !(o.index == 0 && o.subindex == 0) && described(o.index, o.subindex)
    ensures var v := VarOf(entries, n, mapoffset, bitoffset);
            v.index == o.index && v.subindex == o.subindex && 8 * v.size <= o.bits < 8 * v.size + 8
  {
    EntryLength(o);
    hide Entry, BitsBefore;
  }

  /** The bits before entry `n`. */
  function BitsBefore(entries: seq<nat>, n: nat): nat
    requires n <= |entries|
  {
    if n == 0 then 0 else BitsBefore(entries, n - 1) + BitLength(entries[n - 1])
  }

  /** Entry `n` as a variable. */
  function VarOf(entries: seq<nat>, n: nat, mapoffset: nat, bitoffset: nat): PdVar
    requires n < |entries|
  {
    PdVar(IndexOf(entries[n]), SubIndexOf(entries[n]),
          mapoffset + (bitoffset + BitsBefore(entries, n)) / 8, BitLength(entries[n]) / 8)
  }

  /** The variables of the first `n` entries, those that are not fillers. */
  function Variables(entries: seq<nat>, n: nat, mapoffset: nat, bitoffset: nat, described: (nat, nat) -> bool)
    : (vars: seq<PdVar>)
    requires n <= |entries|
    ensures |vars| <= n
  {
    if n == 0 then []
    else
      var before := Variables(entries, n - 1, mapoffset, bitoffset, described);
      if Known(entries[n - 1], described) then before + [VarOf(entries, n - 1, mapoffset, bitoffset)] else before
  }

  lemma {:induction false} EntriesGrow(d: Dictionary, sm: nat, j: nat, k: nat)
    requires j <= k <= |d.pdos(sm)|
    ensures |EntriesOf(d, sm, j)| <= |EntriesOf(d, sm, k)|
  {
    if j < k {
      EntriesGrow(d, sm, j, k - 1);
    }
  }

  /** Entries that follow do not change what is published before them. */
  lemma {:induction false} SameVariables(before: seq<nat>, all: seq<nat>, n: nat, mapoffset: nat, bitoffset: nat,
                                         described: (nat, nat) -> bool)
    requires before <= all && n <= |before|
    ensures Variables(before, n, mapoffset, bitoffset, described) == Variables(all, n, mapoffset, bitoffset, described)
    ensures BitsBefore(before, n) == BitsBefore(all, n)
  {
    hide Known, BitLength;
    if n > 0 {
      SameVariables(before, all, n - 1, mapoffset, bitoffset, described);
    }
  }

  /** One entry: the next place in the table gets its index; it is kept if the object is described. */
  method OneEntry(entry: nat, ghost all: seq<nat>, ghost n: nat, mapoffset: nat, bitoffset: nat, bsize: nat,
                  described: (nat, nat) -> bool, pdVar: array<PdVar>, num0: nat)
    returns (num: nat)
    requires n < |all| <= MAX_PD_NUM == pdVar.Length && entry == all[n] && num0 <= n
    requires pdVar[..num0] == Variables(all, n, mapoffset, bitoffset, described) && bsize == BitsBefore(all, n)
    modifies pdVar
    ensures num <= n + 1 && pdVar[..num] == Variables(all, n + 1, mapoffset, bitoffset, described)
  {
    num := num0;
    pdVar[num] := pdVar[num].(index := IndexOf(entry), subindex := SubIndexOf(entry));
    if Known(entry, described) {
      pdVar[num] := pdVar[num].(offset := mapoffset + (bitoffset + bsize) / 8, size := BitLength(entry) / 8);
      num := num + 1;
    }
    hide Known, IndexOf, SubIndexOf, BitLength;
  }

  /** Publishes the variables of one sync manager in the slave's table. */
  method PdoAssign(d: Dictionary, sm: nat, mapoffset: nat, bitoffset: nat, described: (nat, nat) -> bool,
                   pdVar: array<PdVar>)
      returns (num: nat, bsize: nat)
    requires ValidDictionary(d) && pdVar.Length == MAX_PD_NUM
    requires |EntriesOf(d, sm, |d.pdos(sm)|)| <= MAX_PD_NUM
    modifies pdVar
    ensures var entries := EntriesOf(d, sm, |d.pdos(sm)|);
            && num <= MAX_PD_NUM
            && pdVar[..num] == Variables(entries, |entries|, mapoffset, bitoffset, described)
            && bsize == BitsBefore(entries, |entries|)
  {
    hide Known, VarOf;
    num, bsize := 0, 0;
    var nidx := |d.pdos(sm)|;
    ghost var entries := EntriesOf(d, sm, nidx);
    var idxloop := 1;
    while idxloop <= nidx
      modifies pdVar
      invariant 1 <= idxloop <= nidx + 1 && num <= MAX_PD_NUM
      invariant var done := EntriesOf(d, sm, idxloop - 1);
                && pdVar[..num] == Variables(done, |done|, mapoffset, bitoffset, described)
                && bsize == BitsBefore(done, |done|)
    {
      EntriesGrow(d, sm, idxloop, nidx);
      num, bsize := OnePdo(d, sm, idxloop, mapoffset, bitoffset, described, pdVar, num, bsize);
      idxloop := idxloop + 1;
    }
  }

  /** The entries of one PDO. */
  method OnePdo(d: Dictionary, sm: nat, k: nat, mapoffset: nat, bitoffset: nat, described: (nat, nat) -> bool,
                pdVar: array<PdVar>, num0: nat, bsize0: nat)
    returns (num: nat, bsize: nat)
    requires ValidDictionary(d) && pdVar.Length == MAX_PD_NUM && 0 < k <= |d.pdos(sm)| && num0 <= MAX_PD_NUM
    requires |EntriesOf(d, sm, k)| <= MAX_PD_NUM
    requires var done := EntriesOf(d, sm, k - 1);
             && pdVar[..num0] == Variables(done, |done|, mapoffset, bitoffset, described)
             && bsize0 == BitsBefore(done, |done|)
    modifies pdVar
    ensures var done := EntriesOf(d, sm, k);
            && num <= MAX_PD_NUM
            && pdVar[..num] == Variables(done, |done|, mapoffset, bitoffset, described)
            && bsize == BitsBefore(done, |done|)
  {
    hide Known, VarOf, Variables, BitLength;
    num, bsize := num0, bsize0;
    var idx := d.pdos(sm)[k - 1];
    ghost var before := EntriesOf(d, sm, k - 1);
    if idx > 0 {
      ghost var all := EntriesOf(d, sm, k);
      SameVariables(before, all, |before|, mapoffset, bitoffset, described);
      var subidxloop := 1;
      while subidxloop <= |d.mapped(idx)|
        modifies pdVar
        invariant 1 <= subidxloop <= |d.mapped(idx)| + 1 && num <= |before| + subidxloop - 1
        invariant pdVar[..num] == Variables(all, |before| + subidxloop - 1, mapoffset, bitoffset, described)
        invariant bsize == BitsBefore(all, |before| + subidxloop - 1)
      {
        var entry := d.mapped(idx)[subidxloop - 1];
        assert entry == all[|before| + subidxloop - 1];
        num := OneEntry(entry, all, |before| + subidxloop - 1, mapoffset, bitoffset, bsize, described, pdVar, num);
        bsize := bsize + BitLength(entry);
        subidxloop := subidxloop + 1;
      }
      assert |before| + |d.mapped(idx)| == |all|;
    } else {
      assert before + [] == before;
    }
  }

  lemma {:induction false} BitsGrow(entries: seq<nat>, j: nat, k: nat)
    requires j <= k <= |entries|
    ensures BitsBefore(entries, j) <= BitsBefore(entries, k)
  {
    hide BitLength;
    if j < k {
      BitsGrow(entries, j, k - 1);
    }
  }

  /** The bytes of an entry end before those of any later one begin. */
  lemma {:induction false} EntryBeforeEntry(entries: seq<nat>, j: nat, k: nat, mapoffset: nat, bitoffset: nat)
    requires j < k <= |entries|
    ensures var v := VarOf(entries, j, mapoffset, bitoffset);
            v.offset + v.size <= mapoffset + (bitoffset + BitsBefore(entries, k)) / 8
  {
    BitsGrow(entries, j + 1, k);
    var b, l := bitoffset + BitsBefore(entries, j), BitLength(entries[j]);
    assert b / 8 + l / 8 <= (b + l) / 8;
    hide BitLength;
  }

  /** All variables of the first `n` entries end where the bits of these entries end. */
  lemma {:induction false} VariablesEnd(entries: seq<nat>, n: nat, mapoffset: nat, bitoffset: nat,
                                        described: (nat, nat) -> bool, i: nat)
    requires n <= |entries| && i < |Variables(entries, n, mapoffset, bitoffset, described)|
    ensures var v := Variables(entries, n, mapoffset, bitoffset, described)[i];
            && mapoffset + bitoffset / 8 <= v.offset
            && v.offset + v.size <= mapoffset + (bitoffset + BitsBefore(entries, n)) / 8
  {
    hide Known, VarOf, BitLength;
    var before := Variables(entries, n - 1, mapoffset, bitoffset, described);
    BitsGrow(entries, n - 1, n);
    if i < |before| {
      VariablesEnd(entries, n - 1, mapoffset, bitoffset, described, i);
      Eighths(bitoffset + BitsBefore(entries, n - 1), bitoffset + BitsBefore(entries, n));
    } else {
      EntryBeforeEntry(entries, n - 1, n, mapoffset, bitoffset);
      OffsetOf(entries, n - 1, mapoffset, bitoffset);
    }
  }

  lemma {:induction false} Eighths(x: nat, y: nat)
    requires x <= y
    ensures x / 8 <= y / 8
  {
  }

  lemma {:induction false} OffsetOf(entries: seq<nat>, n: nat, mapoffset: nat, bitoffset: nat)
    requires n < |entries|
    ensures VarOf(entries, n, mapoffset, bitoffset).offset == mapoffset + (bitoffset + BitsBefore(entries, n)) / 8
    ensures VarOf(entries, n, mapoffset, bitoffset).offset >= mapoffset + bitoffset / 8
  {
    Eighths(bitoffset, bitoffset + BitsBefore(entries, n));
    hide BitLength;
  }

  /** The variables lie one after the other, also with fillers between them and odd bit lengths: the
      bytes of one end before those of the next begin. */
  lemma {:induction false} VariablesAreOrdered(entries: seq<nat>, n: nat, mapoffset: nat, bitoffset: nat,
                                               described: (nat, nat) -> bool, i: nat, j: nat)
    requires n <= |entries| && i < j < |Variables(entries, n, mapoffset, bitoffset, described)|
    ensures var vars := Variables(entries, n, mapoffset, bitoffset, described);
            vars[i].offset + vars[i].size <= vars[j].offset
  {
    hide Known, VarOf, BitLength;
    var before := Variables(entries, n - 1, mapoffset, bitoffset, described);
    if j < |before| {
      VariablesAreOrdered(entries, n - 1, mapoffset, bitoffset, described, i, j);
    } else {
      VariablesEnd(entries, n - 1, mapoffset, bitoffset, described, i);
      OffsetOf(entries, n - 1, mapoffset, bitoffset);
    }
  }

  lemma {:induction false} BitsOfConcat(a: seq<nat>, b: seq<nat>, k: nat)
    requires k <= |b|
    ensures BitsBefore(a + b, |a| + k) == BitsBefore(a, |a|) + BitsBefore(b, k)
  {
    hide BitLength;
    if k > 0 {
      BitsOfConcat(a, b, k - 1);
    } else {
      BitsOfPrefix(a, a + b, |a|);
    }
  }

  lemma {:induction false} BitsOfPrefix(a: seq<nat>, all: seq<nat>, k: nat)
    requires a <= all && k <= |a|
    ensures BitsBefore(all, k) == BitsBefore(a, k)
  {
    hide BitLength;
    if k > 0 {
      BitsOfPrefix(a, all, k - 1);
    }
  }

  lemma {:induction false} BitsOfPdo(d: Dictionary, pdo: nat, k: nat)
    requires k <= |d.mapped(pdo)|
    ensures BitsBefore(d.mapped(pdo), k) == EntryBits(d, pdo, k)
  {
    if k > 0 {
      BitsOfPdo(d, pdo, k - 1);
    }
  }

  /** The bits of all entries are the size that the mapper has found for the sync manager. */
  lemma {:induction false} BitsAreAssigned(d: Dictionary, sm: nat, k: nat)
    requires k <= |d.pdos(sm)|
    ensures BitsBefore(EntriesOf(d, sm, k), |EntriesOf(d, sm, k)|) == AssignedBits(d, sm, k)
  {
    hide BitLength, BitsBefore, EntryBits;
    if k > 0 {
      BitsAreAssigned(d, sm, k - 1);
      var before, pdo := EntriesOf(d, sm, k - 1), d.pdos(sm)[k - 1];
      if pdo > 0 {
        BitsOfConcat(before, d.mapped(pdo), |d.mapped(pdo)|);
        BitsOfPdo(d, pdo, |d.mapped(pdo)|);
      } else {
        assert before + [] == before;
      }
    } else {
      NoBits();
    }
  }

  lemma {:induction false} NoBits()
    ensures BitsBefore([], 0) == 0
  {
  }
}
