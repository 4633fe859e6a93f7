/** Publishing all variables of a slave (si_map_sdo), and where they lie in the image that the mapper has
    built. */
module PublishedWindow {
  import opened Memory
  import opened FmmuMapping
  import opened ProcessImage
  import opened ImageLayout
  import opened MapGroup
  import opened PublishedOffsets
  import D = PdoMap
  import V = PublishedVariables

  /** The type of a sync manager as the application sees it: none if there is no such sync manager. */
  function TypeAt(d: D.Dictionary, sm: nat): nat
    requires sm >= 2
  {
    if sm < |d.smTypes| then D.Corrected(d, sm) else 0
  }

  predicate HasData(t: nat) { t == 3 || t == 4 }

  /** All bits of a sync manager, and those published before it in the same direction. */
  function BitsAt(d: D.Dictionary, sm: nat): nat { D.AssignedBits(d, sm, |d.pdos(sm)|) }

  function BitsBefore(d: D.Dictionary, sm: nat): nat {
    if sm == 3 && TypeAt(d, 2) == TypeAt(d, 3) then BitsAt(d, 2) else 0
  }

  /** The variables of one sync manager, from the offset of the slave in the direction of its type. */
  function VarsAt(d: D.Dictionary, sm: nat, outOffset: nat, inOffset: nat, described: (nat, nat) -> bool): seq<V.PdVar>
    requires sm >= 2
  {
    var entries := V.EntriesOf(d, sm, |d.pdos(sm)|);
    if HasData(TypeAt(d, sm)) then
      V.Variables(entries, |entries|, if TypeAt(d, sm) == 3 then outOffset else inOffset, BitsBefore(d, sm), described)
    else []
  }

  /** The tables of a slave have room for 25 variables each. */
  ghost predicate FitsTables(d: D.Dictionary) {
    |V.EntriesOf(d, 2, |d.pdos(2)|)| <= V.MAX_PD_NUM && |V.EntriesOf(d, 3, |d.pdos(3)|)| <= V.MAX_PD_NUM
  }

  /** The bits published in the direction of type `t` before sync manager `sm`. */
  function Published(d: D.Dictionary, sm: nat, t: nat): nat {
    (if sm > 2 && TypeAt(d, 2) == t then BitsAt(d, 2) else 0)
      + (if sm > 3 && TypeAt(d, 3) == t then BitsAt(d, 3) else 0)
  }

  /** The tables of one slave. */
  class SlaveVars {
    const outputVars: array<V.PdVar>
    const inputVars: array<V.PdVar>
    var outputVarNum: nat
    var inputVarNum: nat

    constructor (outputVars: array<V.PdVar>, inputVars: array<V.PdVar>)
      ensures this.outputVars == outputVars && this.inputVars == inputVars && outputVarNum == inputVarNum == 0
    {
      this.outputVars, this.inputVars := outputVars, inputVars;
      outputVarNum, inputVarNum := 0, 0;
    }

    ghost predicate Valid()
      reads this
    {
      outputVars.Length == inputVars.Length == V.MAX_PD_NUM && outputVars != inputVars
      && outputVarNum <= V.MAX_PD_NUM && inputVarNum <= V.MAX_PD_NUM
    }

    /** Variables of sync manager 2 go to the table of outputs and those of 3 to the table of inputs,
        whatever their type; others are not published. */
    method PdoAssign(d: D.Dictionary, sm: nat, mapoffset: nat, bitoffset: nat, described: (nat, nat) -> bool)
      returns (bsize: nat)
      requires Valid() && D.ValidDictionary(d) && FitsTables(d)
      modifies this, outputVars, inputVars
      ensures Valid() && bsize == if sm == 2 || sm == 3 then BitsAt(d, sm) else 0
      ensures var entries := V.EntriesOf(d, sm, |d.pdos(sm)|);
              var vars := V.Variables(entries, |entries|, mapoffset, bitoffset, described);
              && (if sm == 2 then outputVars[..outputVarNum] == vars
                  else outputVarNum == old(outputVarNum) && outputVars[..] == old(outputVars[..]))
              && (if sm == 3 then inputVars[..inputVarNum] == vars
                  else inputVarNum == old(inputVarNum) && inputVars[..] == old(inputVars[..]))
    {
      hide V.Variables, V.EntriesOf, V.BitsBefore, D.AssignedBits;
      V.BitsAreAssigned(d, sm, |d.pdos(sm)|);
      bsize := 0;
      if sm == 2 {
        outputVarNum, bsize := V.PdoAssign(d, sm, mapoffset, bitoffset, described, outputVars);
      } else if sm == 3 {
        inputVarNum, bsize := V.PdoAssign(d, sm, mapoffset, bitoffset, described, inputVars);
      }
    }

    /** All sync managers of the slave, with its offsets in the outputs and inputs of the image. */
    method MapSdo(d: D.Dictionary, slaveOutOffset: nat, slaveInOffset: nat, described: (nat, nat) -> bool)
      returns (found: bool)
      requires Valid() && outputVarNum == inputVarNum == 0 && D.ValidDictionary(d) && FitsTables(d)
      modifies this, outputVars, inputVars
      ensures Valid()
      ensures outputVars[..outputVarNum] == VarsAt(d, 2, slaveOutOffset, slaveInOffset, described)
      ensures inputVars[..inputVarNum] == VarsAt(d, 3, slaveOutOffset, slaveInOffset, described)
      ensures found <==> (HasData(TypeAt(d, 2)) && BitsAt(d, 2) > 0) || (HasData(TypeAt(d, 3)) && BitsAt(d, 3) > 0)
    {
      hide V.Variables, V.EntriesOf, BitsAt, FitsTables;
      var bugAdd, outputsBo, inputsBo := 0, 0, 0;
      var nSM := |d.smTypes|;
      if nSM > 2 {
        nSM := nSM - 1;
        if nSM > D.EC_MAXSM {
          nSM := D.EC_MAXSM;
        }
        var iSM := 2;
        while iSM <= nSM
          modifies this, outputVars, inputVars
          invariant Valid() && 2 <= iSM <= nSM + 1 && nSM < |d.smTypes| && (nSM >= 3 || nSM == |d.smTypes| - 1)
          invariant iSM > 2 ==> bugAdd == if d.smTypes[2] == 2 then 1 else 0
          invariant iSM == 2 ==> bugAdd == 0
          invariant outputVars[..outputVarNum] == if iSM > 2
                    then VarsAt(d, 2, slaveOutOffset, slaveInOffset, described) else []
          invariant inputVars[..inputVarNum] == if iSM > 3 then VarsAt(d, 3, slaveOutOffset, slaveInOffset, described)
                    else []
          invariant outputsBo == Published(d, iSM, 3) && inputsBo == Published(d, iSM, 4)
        {
          var tSM := d.smTypes[iSM];
          if iSM == 2 && tSM == 2 {
            bugAdd := 1;
          }
          if tSM != 0 {
            tSM := (tSM + bugAdd) % 256;
          }
          assert tSM == TypeAt(d, iSM);
          if tSM == 3 {
            var tsize := PdoAssign(d, iSM, slaveOutOffset, outputsBo, described);
            outputsBo := outputsBo + tsize;
          }
          if tSM == 4 {
            var tsize := PdoAssign(d, iSM, slaveInOffset, inputsBo, described);
            inputsBo := inputsBo + tsize;
          }
          iSM := iSM + 1;
        }
      }
      found := outputsBo > 0 || inputsBo > 0;
    }
  }

  /** The bits of the sync managers from 2 up to `k` that the mapper counts for one direction. */
  function CountedBits(d: D.Dictionary, k: nat, single: bool, t: nat): nat
    requires k <= |d.smTypes|
  {
    if k <= 2 then 0
    else CountedBits(d, k - 1, single, t) + (if D.TypeOf(d, k - 1, single) == t then BitsAt(d, k - 1) else 0)
  }

  lemma {:induction false} SizesAreCounted(d: D.Dictionary, sms: seq<D.Sm>, k: nat, single: bool)
    requires |sms| == D.EC_MAXSM && k <= D.Limit(d)
    ensures var m := D.MapUpto(d, sms, k, single);
            m.osize == CountedBits(d, k, single, 3) && m.isize == CountedBits(d, k, single, 4)
  {
    hide D.TypeOf, D.AssignedBits;
    if k > 2 {
      SizesAreCounted(d, sms, k - 1, single);
    }
  }

  lemma {:induction false} CountGrows(d: D.Dictionary, j: nat, k: nat, single: bool, t: nat)
    requires j <= k <= |d.smTypes|
    ensures CountedBits(d, j, single, t) <= CountedBits(d, k, single, t)
  {
    hide D.TypeOf, BitsAt;
    if j < k {
      CountGrows(d, j, k - 1, single, t);
    }
  }

  /** The mapper gives a sync manager that the application publishes the same type. */
  lemma {:induction false} SameType(d: D.Dictionary, sm: nat, single: bool)
    requires 2 <= sm < |d.smTypes| && TypeAt(d, sm) != 0
    ensures D.TypeOf(d, sm, single) == TypeAt(d, sm)
  {
    hide D.Corrected;
  }

  lemma {:induction false} HasType(d: D.Dictionary, sm: nat)
    requires sm >= 2
    ensures TypeAt(d, sm) != 0 ==> sm < |d.smTypes|
  {
  }

  /** What is published for sync managers 2 and 3 is part of what the mapper counts. */
  lemma {:induction false} PublishedIsCounted(d: D.Dictionary, single: bool, sm: nat)
    requires (sm == 2 || sm == 3) && HasData(TypeAt(d, sm))
    ensures sm < D.Limit(d)
    ensures BitsBefore(d, sm) + BitsAt(d, sm) <= CountedBits(d, D.Limit(d), single, TypeAt(d, sm))
  {
    hide TypeAt, D.TypeOf, BitsAt;
    HasType(d, sm);
    SameType(d, sm, single);
    CountGrows(d, sm + 1, D.Limit(d), single, TypeAt(d, sm));
    if sm == 3 && TypeAt(d, 2) == TypeAt(d, 3) {
      SameType(d, 2, single);
    }
  }

  /** The sizes that the mapper takes from the dictionary of a slave. */
  predicate SizedBy(s: Slave, d: D.Dictionary, sms: seq<D.Sm>, single: bool)
    requires |sms| == D.EC_MAXSM
  {
    var m := D.MapUpto(d, sms, D.Limit(d), single);
    s.obits == m.osize && s.ibits == m.isize
  }

  function DirectionOf(t: nat): Direction { if t == 3 then Outputs else Inputs }

  /** All that is published for a sync manager fits the bits of its slave in that direction. */
  lemma {:induction false} PublishedFits(s: Slave, d: D.Dictionary, sms: seq<D.Sm>, single: bool, sm: nat)
    requires |sms| == D.EC_MAXSM && SizedBy(s, d, sms, single)
    requires (sm == 2 || sm == 3) && HasData(TypeAt(d, sm))
    ensures BitsBefore(d, sm) + BitsAt(d, sm) <= Bits(s, DirectionOf(TypeAt(d, sm)))
  {
    hide TypeAt, D.MapUpto, CountedBits, BitsBefore, BitsAt;
    SizesAreCounted(d, sms, D.Limit(d), single);
    PublishedIsCounted(d, single, sm);
  }

  /** A variable of a sync manager lies in the bytes of the bits published up to it. */
  lemma {:induction false} VariableInBytes(d: D.Dictionary, sm: nat, outOffset: nat, inOffset: nat,
                                           described: (nat, nat) -> bool, i: nat)
    requires sm >= 2 && i < |VarsAt(d, sm, outOffset, inOffset, described)|
    ensures HasData(TypeAt(d, sm))
    ensures var v := VarsAt(d, sm, outOffset, inOffset, described)[i];
            var offset := if TypeAt(d, sm) == 3 then outOffset else inOffset;
            offset <= v.offset && v.offset + v.size <= offset + (BitsBefore(d, sm) + BitsAt(d, sm)) / 8
  {
    hide V.Variables, V.EntriesOf, V.BitsBefore, D.AssignedBits, TypeAt, BitsBefore;
    var entries := V.EntriesOf(d, sm, |d.pdos(sm)|);
    var offset := if TypeAt(d, sm) == 3 then outOffset else inOffset;
    V.VariablesEnd(entries, |entries|, offset, BitsBefore(d, sm), described, i);
    V.BitsAreAssigned(d, sm, |d.pdos(sm)|);
  }

  lemma {:induction false} WholeBytes(x: nat, y: nat)
    requires x <= y && y > 7
    ensures x / 8 <= BytesFor(y)
  {
  }

  /** In the completely mapped list, every variable that the application publishes for a slave lies
      within the bytes of the image that the mapper has given to this slave in the direction of the
      variable. */
  lemma {:induction false} VariablesInWindow(s: seq<Slave>, grp: Group, k: nat, d: D.Dictionary, sms: seq<D.Sm>,
                                             single: bool, sm: nat, described: (nat, nat) -> bool, i: nat)
    requires CanMapGroup(s, 0, 0) && Describes(grp, s, 0, 0) && WellFormedList(s) && Covered(s) && 1 <= k < |s|
    requires s[k].outputs.Null? && s[k].inputs.Null?
    requires |sms| == D.EC_MAXSM && SizedBy(s[k], d, sms, single) && (sm == 2 || sm == 3)
    requires i < |VarsAt(d, sm, SumBytes(s, Outputs, k), SumBytes(s, Inputs, k), described)|
    requires Bits(s[k], DirectionOf(TypeAt(d, sm))) > 7 && NoBitsBefore(s, DirectionOf(TypeAt(d, sm)), k)
    ensures var dir, t := DirectionOf(TypeAt(d, sm)), FullyMapped(s, 0, 0);
            var master := MasterRecord(s[0], 0, grp.Obytes, grp.Ibytes);
            var v := VarsAt(d, sm, SumBytes(s, Outputs, k), SumBytes(s, Inputs, k), described)[i];
            && Place(t[k], dir).InMap? && Place(master, dir).InMap?
            && var first := Place(t[k], dir).offset - Place(master, dir).offset;
            first <= v.offset && v.offset + v.size <= first + Bytes(s[k], dir)
  {
    hide CanMapGroup, Describes, WellFormedList, SumBytes, SizedBy, VarsAt, TypeAt, HasData, BitsBefore, BitsAt,
         FullyMapped, Place;
    var dir := DirectionOf(TypeAt(d, sm));
    VariableInBytes(d, sm, SumBytes(s, Outputs, k), SumBytes(s, Inputs, k), described, i);
    PublishedFits(s[k], d, sms, single, sm);
    OffsetsAgreeIff(s, grp, k, dir);
    assert Bytes(s[k], dir) == BytesFor(Bits(s[k], dir));
    WholeBytes(BitsBefore(d, sm) + BitsAt(d, sm), Bits(s[k], dir));
  }
}
