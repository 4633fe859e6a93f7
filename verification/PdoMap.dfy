/** Finding the size of the process data from the object dictionary of a slave, one subindex at a time
    (ecx_readPDOmap) or a whole object at a time (ecx_readPDOmapCA). */
module PdoMap {
  import opened Memory

  const EC_MAXSM := 8

  /** The dictionary of a slave: the types of its sync managers (object 0x1C00), the PDOs assigned to a
      sync manager (0x1C10 and up), and the entries mapped in a PDO. */
  datatype Dictionary = Dictionary(smTypes: seq<nat>, pdos: nat -> seq<nat>, mapped: nat -> seq<nat>)

  /** Numbers of subindexes fit their 8 bits. */
  ghost predicate ValidDictionary(d: Dictionary) {
    && |d.smTypes| < 256
    && (forall i {:trigger d.smTypes[i]} :: 0 <= i < |d.smTypes| ==> d.smTypes[i] < 256)
    && (forall sm {:trigger d.pdos(sm)} :: |d.pdos(sm)| < 256)
    && forall pdo {:trigger d.mapped(pdo)} :: |d.mapped(pdo)| < 256
  }

  /** The bits that the first `k` entries of a PDO take; the low byte of an entry is its length. */
  function EntryBits(d: Dictionary, pdo: nat, k: nat): nat
    requires k <= |d.mapped(pdo)|
  {
    if k == 0 then 0 else EntryBits(d, pdo, k - 1) + d.mapped(pdo)[k - 1] % 256
  }

  /** An object mapped in a PDO, and its entry in the dictionary: index, subindex, and length in bits. */
  datatype Object = Object(index: word, subindex: byte, bits: byte)

  function Entry(o: Object): nat { 0x1_0000 * o.index + 0x100 * o.subindex + o.bits }

  function Entries(os: seq<Object>): (es: seq<nat>)
    ensures |es| == |os| && forall k {:trigger es[k]} :: 0 <= k < |os| ==> es[k] == Entry(os[k])
  {
    seq(|os|, k requires 0 <= k < |os| => Entry(os[k]))
  }

  function Lengths(os: seq<Object>, k: nat): nat
    requires k <= |os|
  {
    if k == 0 then 0 else Lengths(os, k - 1) + os[k - 1].bits
  }

  /** What is counted for a PDO are the lengths of its objects. */
  lemma {:induction false} LengthsAreCounted(d: Dictionary, pdo: nat, os: seq<Object>, k: nat)
    requires d.mapped(pdo) == Entries(os) && k <= |os|
    ensures EntryBits(d, pdo, k) == Lengths(os, k)
  {
    if k > 0 {
      LengthsAreCounted(d, pdo, os, k - 1);
      EntryLength(os[k - 1]);
    }
  }

  lemma {:induction false} EntryLength(o: Object)
    ensures Entry(o) % 256 == o.bits && Entry(o) / 256 % 256 == o.subindex && Entry(o) / 65536 == o.index
  {
    assert Entry(o) == 256 * (256 * o.index + o.subindex) + o.bits;
    assert Entry(o) == 65536 * o.index + (256 * o.subindex + o.bits);
  }

  /** The bits of the first `k` PDOs assigned to a sync manager; index 0 stands for none. */
  function AssignedBits(d: Dictionary, sm: nat, k: nat): nat
    requires k <= |d.pdos(sm)|
  {
    if k == 0 then 0
    else
      var pdo := d.pdos(sm)[k - 1];
      AssignedBits(d, sm, k - 1) + (if pdo > 0 then EntryBits(d, pdo, |d.mapped(pdo)|) else 0)
  }

  /** The lengths of all objects of the first `k` PDOs assigned to a sync manager; an index of 0 is no PDO. */
  function AssignedLengths(d: Dictionary, os: nat -> seq<Object>, sm: nat, k: nat): nat
    requires k <= |d.pdos(sm)|
  {
    if k == 0 then 0
    else
      var pdo := d.pdos(sm)[k - 1];
      AssignedLengths(d, os, sm, k - 1) + (if pdo == 0 then 0 else Lengths(os(pdo), |os(pdo)|))
  }

  lemma {:induction false} AssignedAreCounted(d: Dictionary, os: nat -> seq<Object>, sm: nat, k: nat)
    requires k <= |d.pdos(sm)| && forall pdo {:trigger os(pdo)} :: d.mapped(pdo) == Entries(os(pdo))
    ensures AssignedBits(d, sm, k) == AssignedLengths(d, os, sm, k)
  {
    hide Lengths, EntryBits;
    if k > 0 {
      AssignedAreCounted(d, os, sm, k - 1);
      var pdo := d.pdos(sm)[k - 1];
      assert d.mapped(pdo) == Entries(os(pdo));
      LengthsAreCounted(d, pdo, os(pdo), |os(pdo)|);
    }
  }

  /** The type of sync manager `i`, one higher if the slave counts its types from 0. */
  function Corrected(d: Dictionary, i: nat): nat
    requires 2 <= i < |d.smTypes|
  {
    if d.smTypes[i] == 0 then 0 else (d.smTypes[i] + (if d.smTypes[2] == 2 then 1 else 0)) % 256
  }

  /** Only single reads also give the types 3 and 4 to sync managers 2 and 3 that have none. */
  function TypeOf(d: Dictionary, i: nat, single: bool): nat
    requires 2 <= i < |d.smTypes|
  {
    var t := Corrected(d, i);
    if single && i == 2 && t == 0 then 3 else if single && i == 3 && t == 0 then 4 else t
  }

  datatype Sm = Sm(smType: nat, length: nat, enabled: bool)

  /** The sync managers and the sizes found so far. */
  datatype Mapping = Mapping(sms: seq<Sm>, osize: nat, isize: nat)

  function Limit(d: Dictionary): nat { if |d.smTypes| > EC_MAXSM then EC_MAXSM else |d.smTypes| }

  /** One sync manager of type `t` whose PDOs have `tsize` bits. */
  function Step(m: Mapping, i: nat, t: nat, tsize: nat): (r: Mapping)
    requires i < |m.sms|
    ensures |r.sms| == |m.sms|
  {
    var sm := m.sms[i].(smType := t, enabled := m.sms[i].enabled && t != 0);
    if (t == 3 || t == 4) && tsize > 0 then
      Mapping(m.sms[i := sm.(length := (tsize + 7) / 8 % 65536)],
              if t == 3 then m.osize + tsize else m.osize, if t == 4 then m.isize + tsize else m.isize)
    else m.(sms := m.sms[i := sm])
  }

  /** The sync managers from 2 up to `k`. */
  function MapUpto(d: Dictionary, sms: seq<Sm>, k: nat, single: bool): (r: Mapping)
    requires |sms| == EC_MAXSM && k <= Limit(d)
    ensures |r.sms| == EC_MAXSM
  {
    if k <= 2 then Mapping(sms, 0, 0)
    else
      Step(MapUpto(d, sms, k - 1, single), k - 1, TypeOf(d, k - 1, single),
           AssignedBits(d, k - 1, |d.pdos(k - 1)|))
  }

  lemma {:induction false} NothingMapped(d: Dictionary, sms: seq<Sm>, single: bool)
    requires |sms| == EC_MAXSM
    ensures forall k {:trigger MapUpto(d, sms, k, single)} :: 0 <= k <= 2 && k <= Limit(d) ==>
              MapUpto(d, sms, k, single) == Mapping(sms, 0, 0)
  {
  }

  lemma {:induction false} OneMoreMapped(d: Dictionary, sms: seq<Sm>, k: nat, single: bool)
    requires |sms| == EC_MAXSM && 2 <= k < Limit(d)
    ensures MapUpto(d, sms, k + 1, single)
            == Step(MapUpto(d, sms, k, single), k, TypeOf(d, k, single), AssignedBits(d, k, |d.pdos(k)|))
  {
    hide Step, TypeOf, AssignedBits;
  }

  /** The slave record, as far as it is concerned. */
  class Slave {
    const sm: array<Sm>

    constructor (sm: array<Sm>)
      ensures this.sm == sm
    {
      this.sm := sm;
    }

    method ReadPdoAssign(d: Dictionary, i: nat) returns (bsize: nat)
      requires ValidDictionary(d)
      ensures bsize == AssignedBits(d, i, |d.pdos(i)|)
    {
      bsize := 0;
      var nidx := |d.pdos(i)|;
      var idxloop := 1;
      while idxloop <= nidx
        invariant 1 <= idxloop <= nidx + 1
        invariant bsize == AssignedBits(d, i, idxloop - 1)
      {
        var idx := d.pdos(i)[idxloop - 1];
        if idx > 0 {
          var bits := 0;
          var subidxloop := 1;
          while subidxloop <= |d.mapped(idx)|
            invariant 1 <= subidxloop <= |d.mapped(idx)| + 1
            invariant bits == EntryBits(d, idx, subidxloop - 1)
          {
            var rdat2 := d.mapped(idx)[subidxloop - 1];
            if rdat2 % 256 < 0xff {
              bits := bits + rdat2 % 256;
            } else {
              bits := bits + 0xff;
            }
            subidxloop := subidxloop + 1;
          }
          bsize := bsize + bits;
        }
        idxloop := idxloop + 1;
      }
    }

    method ReadPdoAssignCA(d: Dictionary, i: nat) returns (bsize: nat)
      requires ValidDictionary(d)
      ensures bsize == AssignedBits(d, i, |d.pdos(i)|)
    {
      bsize := 0;
      var assign := d.pdos(i);
      var idxloop := 1;
      while idxloop <= |assign|
        invariant 1 <= idxloop <= |assign| + 1
        invariant bsize == AssignedBits(d, i, idxloop - 1)
      {
        var idx := assign[idxloop - 1];
        if idx > 0 {
          var desc := d.mapped(idx);
          var bits := 0;
          var subidxloop := 1;
          while subidxloop <= |desc|
            invariant 1 <= subidxloop <= |desc| + 1
            invariant bits == EntryBits(d, idx, subidxloop - 1)
          {
            bits := bits + desc[subidxloop - 1] % 256;
            subidxloop := subidxloop + 1;
          }
          bsize := bsize + bits;
        }
        idxloop := idxloop + 1;
      }
    }

    /** Takes in sync manager `i` once its type is known. */
    method Take(d: Dictionary, i: nat, t: nat, tsize: nat, osize0: nat, isize0: nat) returns (osize: nat, isize: nat)
      requires sm.Length == EC_MAXSM && i < EC_MAXSM
      modifies sm
      ensures Mapping(sm[..], osize, isize) == Step(Mapping(old(sm[..]), osize0, isize0), i, t, tsize)
    {
      osize, isize := osize0, isize0;
      sm[i] := sm[i].(smType := t);
      if t == 0 {
        sm[i] := sm[i].(enabled := false);
      }
      if (t == 3 || t == 4) && tsize > 0 {
        sm[i] := sm[i].(length := (tsize + 7) / 8 % 65536);
        if t == 3 {
          osize := osize + tsize;
        } else {
          isize := isize + tsize;
        }
      }
    }

    method ReadPdoMap(d: Dictionary) returns (found: bool, osize: nat, isize: nat)
      requires sm.Length == EC_MAXSM && ValidDictionary(d)
      modifies sm
      ensures Mapping(sm[..], osize, isize) == MapUpto(d, old(sm[..]), Limit(d), true)
      ensures found <==> osize > 0 || isize > 0
    {
      hide AssignedBits, Step, MapUpto;
      NothingMapped(d, sm[..], true);
      osize, isize := 0, 0;
      var bugAdd := 0;
      var nSM := |d.smTypes|;
      if nSM > 2 {
        if nSM > EC_MAXSM {
          nSM := EC_MAXSM;
        }
        var iSM := 2;
        while iSM < nSM
          modifies sm
          invariant 2 <= iSM <= nSM && nSM == Limit(d)
          invariant iSM > 2 ==> bugAdd == if d.smTypes[2] == 2 then 1 else 0
          invariant iSM == 2 ==> bugAdd == 0
          invariant Mapping(sm[..], osize, isize) == MapUpto(d, old(sm[..]), iSM, true)
        {
          var tSM := d.smTypes[iSM];
          if iSM == 2 && tSM == 2 {
            bugAdd := 1;
          }
          if tSM != 0 {
            tSM := (tSM + bugAdd) % 256;
          }
          if iSM == 2 && tSM == 0 {
            tSM := 3;
          }
          if iSM == 3 && tSM == 0 {
            tSM := 4;
          }
          var tsize := 0;
          if tSM == 3 || tSM == 4 {
            tsize := ReadPdoAssign(d, iSM);
          }
          OneMoreMapped(d, old(sm[..]), iSM, true);
          StepIgnores(MapUpto(d, old(sm[..]), iSM, true), iSM, tSM, tsize, AssignedBits(d, iSM, |d.pdos(iSM)|));
          osize, isize := Take(d, iSM, tSM, tsize, osize, isize);
          iSM := iSM + 1;
        }
      }
      found := isize > 0 || osize > 0;
    }

    /** With whole objects; the buffer for the types has room for eight of them. */
    method ReadPdoMapCA(d: Dictionary) returns (found: bool, osize: nat, isize: nat)
      requires sm.Length == EC_MAXSM && ValidDictionary(d)
      modifies sm
      ensures |d.smTypes| <= EC_MAXSM ==>
                Mapping(sm[..], osize, isize) == MapUpto(d, old(sm[..]), Limit(d), false)
      ensures |d.smTypes| > EC_MAXSM ==> sm[..] == old(sm[..]) && osize == isize == 0
      ensures found <==> osize > 0 || isize > 0
    {
      hide AssignedBits, Step, MapUpto;
      NothingMapped(d, sm[..], false);
      osize, isize := 0, 0;
      var bugAdd := 0;
      var types := d.smTypes;
      if 2 < |types| <= EC_MAXSM {
        var iSM := 2;
        while iSM < |types|
          modifies sm
          invariant 2 <= iSM <= |types|
          invariant iSM > 2 ==> bugAdd == if types[2] == 2 then 1 else 0
          invariant iSM == 2 ==> bugAdd == 0
          invariant Mapping(sm[..], osize, isize) == MapUpto(d, old(sm[..]), iSM, false)
        {
          var tSM := types[iSM];
          if iSM == 2 && tSM == 2 {
            bugAdd := 1;
          }
          if tSM != 0 {
            tSM := (tSM + bugAdd) % 256;
          }
          var tsize := 0;
          if tSM == 3 || tSM == 4 {
            tsize := ReadPdoAssignCA(d, iSM);
          }
          OneMoreMapped(d, old(sm[..]), iSM, false);
          StepIgnores(MapUpto(d, old(sm[..]), iSM, false), iSM, tSM, tsize, AssignedBits(d, iSM, |d.pdos(iSM)|));
          osize, isize := Take(d, iSM, tSM, tsize, osize, isize);
          iSM := iSM + 1;
        }
      }
      found := isize > 0 || osize > 0;
    }
  }

  /** The size does not matter for types without process data. */
  lemma {:induction false} StepIgnores(m: Mapping, i: nat, t: nat, size: nat, other: nat)
    requires i < |m.sms| && (t == 3 || t == 4 ==> size == other)
    ensures Step(m, i, t, size) == Step(m, i, t, other)
  {
  }

  lemma {:induction false} SameMapping(d: Dictionary, sms: seq<Sm>, k: nat)
    requires |sms| == EC_MAXSM && k <= Limit(d)
    requires forall i {:trigger TypeOf(d, i, true)} :: 2 <= i < k ==> TypeOf(d, i, true) == TypeOf(d, i, false)
    ensures MapUpto(d, sms, k, true) == MapUpto(d, sms, k, false)
  {
    hide Step, TypeOf, AssignedBits;
    if k > 2 {
      SameMapping(d, sms, k - 1);
      assert TypeOf(d, k - 1, true) == TypeOf(d, k - 1, false);
    }
  }

  /** The type that is recorded stays what it is while further sync managers are read. */
  lemma {:induction false} TypeIsRecorded(d: Dictionary, sms: seq<Sm>, k: nat, single: bool, i: nat)
    requires |sms| == EC_MAXSM && 2 <= i < k <= Limit(d)
    ensures MapUpto(d, sms, k, single).sms[i].smType == TypeOf(d, i, single)
  {
    hide TypeOf, AssignedBits;
    if i < k - 1 {
      TypeIsRecorded(d, sms, k - 1, single, i);
    }
  }

  /** Both ways find the same sizes and leave the same sync managers, for a dictionary with at most eight
      types, if and only if sync managers 2 and 3, where there are any, have a type after the
      correction. */
  lemma {:induction false} BothWaysAgree(d: Dictionary, sms: seq<Sm>)
    requires ValidDictionary(d) && |sms| == EC_MAXSM
    ensures MapUpto(d, sms, Limit(d), true) == MapUpto(d, sms, Limit(d), false)
            <==> (|d.smTypes| > 2 ==> Corrected(d, 2) != 0) && (|d.smTypes| > 3 ==> Corrected(d, 3) != 0)
  {
    hide AssignedBits, Corrected, MapUpto;
    if (|d.smTypes| > 2 ==> Corrected(d, 2) != 0) && (|d.smTypes| > 3 ==> Corrected(d, 3) != 0) {
      SameMapping(d, sms, Limit(d));
    } else {
      var i := if |d.smTypes| > 2 && Corrected(d, 2) == 0 then 2 else 3;
      TypeIsRecorded(d, sms, Limit(d), true, i);
      TypeIsRecorded(d, sms, Limit(d), false, i);
    }
  }

  /** The correction turns types 0 1 2 3 into 1 2 3 4, and a nonzero type never into none unless it is 255. */
  lemma {:induction false} CorrectionKeepsTypes(d: Dictionary, i: nat)
    requires ValidDictionary(d) && 2 <= i < |d.smTypes|
    ensures Corrected(d, i) == 0 <==> d.smTypes[i] == 0 || (d.smTypes[i] == 255 && d.smTypes[2] == 2)
    ensures d.smTypes[2] == 2 && d.smTypes[i] == i ==> Corrected(d, i) == i + 1
  {
    assert d.smTypes[i] < 256;
  }

  /** For example, a slave that gives no type to its sync manager 2, which has one PDO of eight bits: only
      single reads find these outputs. */
  const UNTYPED := Dictionary([1, 2, 0], sm => if sm == 2 then [0x1600] else [],
                              pdo => if pdo == 0x1600 then [0x70000108] else [])

  lemma {:induction false} UntypedOutputsAreLost(sms: seq<Sm>)
    requires |sms| == EC_MAXSM
    ensures MapUpto(UNTYPED, sms, 3, true).osize == 8 && MapUpto(UNTYPED, sms, 3, false).osize == 0
    ensures Limit(UNTYPED) == 3
  {
    assert EntryBits(UNTYPED, 0x1600, 0) == 0;
    assert EntryBits(UNTYPED, 0x1600, 1) == 8;
    assert AssignedBits(UNTYPED, 2, 0) == 0;
    assert AssignedBits(UNTYPED, 2, 1) == 8;
    assert MapUpto(UNTYPED, sms, 2, true) == Mapping(sms, 0, 0) == MapUpto(UNTYPED, sms, 2, false);
  }
}
