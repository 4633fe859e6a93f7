/** The sizes found in the dictionary of a slave are those that its sync managers can hold. */
module MappedSizes {
  import opened PdoMap
  import F = FmmuMapping

  /** The bits of all sync managers of one type from `c` on. */
  function BitsFrom(d: Dictionary, c: nat, kind: nat, single: bool): nat
    requires c >= 2
    decreases Limit(d) - c
  {
    if c >= Limit(d) then 0
    else (if TypeOf(d, c, single) == kind then AssignedBits(d, c, |d.pdos(c)|) else 0)
         + BitsFrom(d, c + 1, kind, single)
  }

  function SizeOf(m: Mapping, kind: nat): nat { if kind == 3 then m.osize else m.isize }

  /** The size of the outputs is the sum over all sync managers of type 3, that of the inputs the sum over those of
      type 4. */
  lemma {:induction false} SizesAreSums(d: Dictionary, sms: seq<Sm>, kind: nat, single: bool)
    requires |sms| == EC_MAXSM && (kind == 3 || kind == 4)
    ensures SizeOf(MapUpto(d, sms, Limit(d), single), kind) == BitsFrom(d, 2, kind, single)
  {
    if Limit(d) >= 2 {
      SumUpto(d, sms, Limit(d), kind, single);
    }
  }

  lemma {:induction false} SumUpto(d: Dictionary, sms: seq<Sm>, k: nat, kind: nat, single: bool)
    requires |sms| == EC_MAXSM && (kind == 3 || kind == 4) && 2 <= k <= Limit(d)
    ensures SizeOf(MapUpto(d, sms, k, single), kind) + BitsFrom(d, k, kind, single) == BitsFrom(d, 2, kind, single)
  {
    hide TypeOf, AssignedBits;
    if k > 2 {
      SumUpto(d, sms, k - 1, kind, single);
    }
  }

  /** A sync manager with process data gets as many bytes as they take, and no more. */
  lemma {:induction false} LengthIsTight(d: Dictionary, sms: seq<Sm>, k: nat, single: bool, i: nat)
    requires |sms| == EC_MAXSM && 2 <= i < k <= Limit(d)
    requires 0 < AssignedBits(d, i, |d.pdos(i)|) <= 8 * 65535
    ensures var sm := MapUpto(d, sms, k, single).sms[i]; var bits := AssignedBits(d, i, |d.pdos(i)|);
            && sm.smType == TypeOf(d, i, single)
            && (sm.smType == 3 || sm.smType == 4 ==> 8 * sm.length - 8 < bits <= 8 * sm.length)
  {
    hide TypeOf, AssignedBits;
    if i < k - 1 {
      LengthIsTight(d, sms, k - 1, single, i);
    }
  }

  /** Of the first eight sync managers that the dictionary knows, all from 2 on get their type. */
  lemma {:induction false} AllGetTypes(d: Dictionary, sms: seq<Sm>, single: bool, i: nat)
    requires |sms| == EC_MAXSM && 2 <= i < 8 && i < |d.smTypes|
    ensures MapUpto(d, sms, Limit(d), single).sms[i].smType == TypeOf(d, i, single)
  {
    TypeIsRecorded(d, sms, Limit(d), single, i);
  }

  /** A sync manager without a type is disabled, and no other one; the first two, and those of which the dictionary
      says nothing, stay as they are. */
  lemma {:induction false} OnlyUnusedAreDisabled(d: Dictionary, sms: seq<Sm>, k: nat, single: bool, i: nat)
    requires |sms| == EC_MAXSM && k <= Limit(d) && i < EC_MAXSM
    ensures var sm := MapUpto(d, sms, k, single).sms[i];
            if 2 <= i < k then sm.enabled <==> sms[i].enabled && TypeOf(d, i, single) != 0 else sm == sms[i]
  {
    hide TypeOf, AssignedBits;
    if k > 2 {
      OnlyUnusedAreDisabled(d, sms, k - 1, single, i);
    }
  }

  /** The sync managers as the mapper of the process image sees them. */
  function AsMapped(sms: seq<Sm>, starts: seq<nat>): (r: seq<F.Sm>)
    requires |sms| == |starts| == EC_MAXSM
    ensures |r| == EC_MAXSM
  {
    seq(EC_MAXSM, i requires 0 <= i < EC_MAXSM => F.Sm(starts[i], sms[i].length, sms[i].smType))
  }

  /** The sync managers hold the process data, so that the mapper finds room for all of it: as long as these are not
      in the last of eight sync managers, and no more than 65535 bytes. */
  lemma {:induction false} DataAreCovered(d: Dictionary, sms: seq<Sm>, starts: seq<nat>, kind: nat, single: bool)
    requires |sms| == |starts| == EC_MAXSM && (kind == 3 || kind == 4)
    requires |d.smTypes| >= EC_MAXSM ==> TypeOf(d, 7, single) != kind
    requires SizeOf(MapUpto(d, sms, Limit(d), single), kind) <= 8 * 65535
    ensures var m := MapUpto(d, sms, Limit(d), single);
            var a := F.AreaOf(AsMapped(m.sms, starts), kind, SizeOf(m, kind));
            F.Cover(a, 0) >= a.bytes
  {
    hide TypeOf, AssignedBits, MapUpto, BitsFrom;
    var m := MapUpto(d, sms, Limit(d), single);
    var a := F.AreaOf(AsMapped(m.sms, starts), kind, SizeOf(m, kind));
    SizesAreSums(d, sms, kind, single);
    CoversFrom(d, sms, a, m, 2, kind, single);
    assert F.Cover(a, 0) >= F.Cover(a, 1) >= F.Cover(a, 2);
  }

  lemma {:induction false} CoversFrom(d: Dictionary, sms: seq<Sm>, a: F.Area, m: Mapping, c: nat, kind: nat,
                                      single: bool)
    requires |sms| == EC_MAXSM && (kind == 3 || kind == 4) && c >= 2 && m == MapUpto(d, sms, Limit(d), single)
    requires a.Valid() && a.kind == kind
    requires forall i :: 0 <= i < EC_MAXSM ==> a.sm[i].length == m.sms[i].length && a.sm[i].kind == m.sms[i].smType
    requires |d.smTypes| >= EC_MAXSM ==> TypeOf(d, 7, single) != kind
    requires BitsFrom(d, c, kind, single) <= 8 * 65535
    ensures 8 * F.Cover(a, c) >= BitsFrom(d, c, kind, single)
    decreases EC_MAXSM - c
  {
    hide TypeOf, AssignedBits, MapUpto;
    if c < Limit(d) {
      CoversFrom(d, sms, a, m, c + 1, kind, single);
      TypeIsRecorded(d, sms, Limit(d), single, c);
      if TypeOf(d, c, single) == kind && AssignedBits(d, c, |d.pdos(c)|) > 0 {
        LengthIsTight(d, sms, Limit(d), single, c);
      }
    }
  }

  /** A slave with outputs in sync manager 2 and inputs in sync manager 3, whose types are as they should be, or one
      too low, or missing: single reads find all of it. */
  lemma {:induction false} UsualSlaveIsRead(d: Dictionary, sms: seq<Sm>)
    requires |sms| == EC_MAXSM
    requires d.smTypes == [1, 2, 3, 4] || d.smTypes == [0, 1, 2, 3] || d.smTypes == [1, 2, 0, 0]
    ensures var m := MapUpto(d, sms, Limit(d), true);
            && m.osize == AssignedBits(d, 2, |d.pdos(2)|) && m.isize == AssignedBits(d, 3, |d.pdos(3)|)
  {
    hide AssignedBits, MapUpto;
    SizesAreSums(d, sms, 3, true);
    SizesAreSums(d, sms, 4, true);
    assert TypeOf(d, 2, true) == 3 && TypeOf(d, 3, true) == 4;
    assert BitsFrom(d, 4, 3, true) == BitsFrom(d, 4, 4, true) == 0;
    assert BitsFrom(d, 3, 3, true) == 0 && BitsFrom(d, 3, 4, true) == AssignedBits(d, 3, |d.pdos(3)|);
  }
}
