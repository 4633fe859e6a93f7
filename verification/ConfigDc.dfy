/** ecx_configdc as a whole: the chain of DC slaves and the delays of all of them. */
module ConfigDc {
  import opened Topology
  import opened DistributedClocks
  import opened DelayExactness
  import opened DelayPass
  import opened PortOrder
  import ParentScan

  /** The number of the last DC slave before slave `i`, or 0 for the master. */
  function PrevDc(s: seq<Entry>, i: nat): (p: nat)
    requires i <= |s|
    ensures i > 0 ==> p < i
  {
    if i <= 1 then 0 else if s[i - 1].hasdc then i - 1 else PrevDc(s, i - 1)
  }

  /** The DC slaves before slave `i` form a doubly linked chain that starts at the master. */
  ghost predicate Chained(s: seq<Entry>, s0: seq<Entry>, i: nat)
    requires |s| == |s0| && 1 <= i <= |s|
  {
    && (s[0].hasdc <==> PrevDc(s0, i) > 0)
    && forall k :: 1 <= k < i && s0[k].hasdc ==>
         s[k].DCprevious == PrevDc(s0, k) && s[PrevDc(s0, k)].DCnext == k
  }

  lemma {:induction false} PrevDcIsLast(s: seq<Entry>, i: nat, k: nat)
    requires 1 <= k < i <= |s| && s[k].hasdc
    ensures k <= PrevDc(s, i)
  {
    if !s[i - 1].hasdc {
      PrevDcIsLast(s, i - 1, k);
    }
  }

  /** The entries agree in everything but the chain of DC slaves. */
  ghost predicate SameEntry(e: Entry, f: Entry) {
    e == f.(DCnext := e.DCnext, DCprevious := e.DCprevious)
  }

  ghost predicate SameButChain(s: seq<Entry>, t: seq<Entry>) {
    |s| == |t| && forall k :: 1 <= k < |s| ==> SameEntry(s[k], t[k])
  }

  /** What the group list says about clocks. */
  datatype Group = Group(hasdc: bool, DCnext: nat)

  /** The number of the first DC slave before slave `i`, or 0 if there is none. */
  function FirstDc(s: seq<Entry>, i: nat): (f: nat)
    requires i <= |s|
    ensures f > 0 ==> f < i && s[f].hasdc
    ensures f == 0 <==> PrevDc(s, i) == 0
  {
    if i <= 1 then 0 else if FirstDc(s, i - 1) > 0 || !s[i - 1].hasdc then FirstDc(s, i - 1) else i - 1
  }

  ghost predicate InGroups(s: seq<Entry>, groups: seq<Group>) {
    |groups| > 0 && forall k :: 1 <= k < |s| ==> s[k].group < |groups|
  }

  /** The groups when the slaves before `i` have been chained: that of the first DC slave has been told. */
  ghost function Told(groups: seq<Group>, s: seq<Entry>, i: nat): (r: seq<Group>)
    requires i <= |s| && InGroups(s, groups)
    ensures |r| == |groups|
  {
    var cleared := groups[0 := groups[0].(hasdc := false)];
    var first := FirstDc(s, i);
    if first == 0 then cleared else cleared[s[first].group := Group(true, first)]
  }

  /** A group that had no clock before says that it has one exactly if the first DC slave is in it. So all
      groups are told of their clocks exactly if all DC slaves are in the group of the first one. The slave that is
      told to the group is this first one. */
  lemma {:induction false} GroupsAreTold(groups: seq<Group>, s: seq<Entry>)
    requires |s| > 0 && InGroups(s, groups) && forall g :: 0 <= g < |groups| ==> !groups[g].hasdc
    ensures (forall g :: 0 <= g < |groups| ==> (Told(groups, s, |s|)[g].hasdc <==> HasClock(s, g)))
            <==> forall k :: 1 <= k < |s| && s[k].hasdc ==> s[k].group == s[FirstDc(s, |s|)].group
    ensures forall g :: 0 <= g < |groups| && Told(groups, s, |s|)[g].hasdc ==>
              FirstOfGroup(s, Told(groups, s, |s|)[g].DCnext, g)
  {
    FirstIsFirst(s, |s|);
    var first, told := FirstDc(s, |s|), Told(groups, s, |s|);
    forall k | 1 <= k < |s| && s[k].hasdc ensures first > 0 && HasClock(s, s[k].group) {
      PrevDcIsLast(s, |s|, k);
      assert InGroup(s, k, s[k].group);
    }
    if first > 0 {
      assert InGroup(s, first, s[first].group);
    }
    if k :| 1 <= k < |s| && s[k].hasdc && s[k].group != s[first].group {
      assert !told[s[k].group].hasdc;
    }
  }

  /** Slave `n` is a DC slave of group `g`, and there is none before it. */
  ghost predicate FirstOfGroup(s: seq<Entry>, n: nat, g: nat) {
    InGroup(s, n, g) && forall k :: 1 <= k < n ==> !s[k].hasdc
  }

  lemma {:induction false} FirstIsFirst(s: seq<Entry>, i: nat)
    requires i <= |s|
    ensures forall k :: 1 <= k < i && (FirstDc(s, i) == 0 || k < FirstDc(s, i)) ==> !s[k].hasdc
    ensures FirstDc(s, i) > 0 ==> s[FirstDc(s, i)].hasdc
  {
    if i > 1 {
      FirstIsFirst(s, i - 1);
    }
  }

  /** Slave `k` is a DC slave of group `g`. */
  ghost predicate InGroup(s: seq<Entry>, k: nat, g: nat) {
    1 <= k < |s| && s[k].hasdc && s[k].group == g
  }

  ghost predicate HasClock(s: seq<Entry>, g: nat) {
    exists k :: InGroup(s, k, g)
  }

  /** Put DC slave `i` at the end of the chain. */
  method LinkDc(slavelist: array<Entry>, grouplist: array<Group>, i: nat, prevDCslave: nat, ghost s0: seq<Entry>,
                ghost g0: seq<Group>)
    requires 1 <= i < slavelist.Length == |s0| && prevDCslave == PrevDc(s0, i) && s0[i].hasdc
    requires Chained(slavelist[..], s0, i) && slavelist[i].group == s0[i].group
    requires InGroups(s0, g0) && grouplist[..] == Told(g0, s0, i)
    modifies slavelist, grouplist
    ensures grouplist[..] == Told(g0, s0, i + 1)
    ensures Chained(slavelist[..], s0, i + 1) && SameButChain(slavelist[..], old(slavelist[..]))
    ensures forall k :: i < k < slavelist.Length ==> slavelist[k] == old(slavelist[k])
  {
    if !slavelist[0].hasdc {
      slavelist[0] := slavelist[0].(hasdc := true, DCnext := i);
      slavelist[i] := slavelist[i].(DCprevious := 0);
      grouplist[slavelist[i].group] := Group(true, i);
    } else {
      slavelist[prevDCslave] := slavelist[prevDCslave].(DCnext := i);
      slavelist[i] := slavelist[i].(DCprevious := prevDCslave);
    }
    forall k | 1 <= k < i && s0[k].hasdc ensures k <= PrevDc(s0, i) {
      PrevDcIsLast(s0, i, k);
    }
  }

  /** The list after a slave without DC, and the split whose port is taken when a whole branch turns out to have
      no DC slave. */
  function Skipped(s: seq<Entry>, i: nat, hold: nat): (r: (seq<Entry>, nat))
    requires 1 <= i < |s| && ParentsFirst(s) && hold < i
    ensures |r.0| == |s| && ParentsFirst(r.0) && r.1 < i
  {
    var parent := s[i].parent;
    var h := if parent > 0 && s[parent].topology > 2 then parent else hold;
    var t := s[i := s[i].(rt := Latch(0, 0, 0, 0), consumedports := s[i].activeports)];
    if h > 0 && s[i].topology == 1 then (t[h := PortTaken(t[h])], 0) else (t, h)
  }

  /** The branch of ecx_configdc for a slave without DC. */
  method SkipSlave(slavelist: array<Entry>, i: nat, parenthold: nat) returns (hold: nat)
    requires 1 <= i < slavelist.Length && ParentsFirst(slavelist[..]) && parenthold < i
    modifies slavelist
    ensures (slavelist[..], hold) == Skipped(old(slavelist[..]), i, parenthold)
  {
    hold := parenthold;
    slavelist[i] := slavelist[i].(consumedports := slavelist[i].activeports);
    slavelist[i] := slavelist[i].(rt := Latch(0, 0, 0, 0));
    ghost var s := old(slavelist[..]);
    ghost var t := s[i := s[i].(rt := Latch(0, 0, 0, 0), consumedports := s[i].activeports)];
    assert slavelist[..] == t;
    var parent := slavelist[i].parent;
    if parent > 0 && slavelist[parent].topology > 2 {
      hold := parent;
    }
    if hold > 0 && slavelist[i].topology == 1 {
      var port := ParentPort(slavelist, hold);
      hold := 0;
    }
  }

  lemma {:induction false} SkippedKeeps(s: seq<Entry>, i: nat, hold: nat)
    requires 1 <= i < |s| && ParentsFirst(s) && hold < i
    ensures SameButMeasurement(Skipped(s, i, hold).0, s)
    ensures forall k :: i < k < |s| ==> Skipped(s, i, hold).0[k] == s[k]
  {
  }

  /** The slaves from `i` to `k` - 1, none of them with DC. */
  function SkippedUpto(s: seq<Entry>, i: nat, k: nat, hold: nat): (r: (seq<Entry>, nat))
    requires 1 <= i <= k <= |s| && ParentsFirst(s) && hold < i
    ensures |r.0| == |s| && ParentsFirst(r.0) && r.1 < k
  {
    if k == i then (s, hold)
    else
      var before := SkippedUpto(s, i, k - 1, hold);
      Skipped(before.0, k - 1, before.1)
  }

  /** The slaves from `i` to `j` are a line that hangs on the split `p`. */
  ghost predicate IsLine(s: seq<Entry>, i: nat, j: nat, p: nat) {
    && 0 < p < i <= j < |s| && s[p].topology > 2 && s[i].parent == p
    && (forall k {:trigger s[k]} :: i < k <= j ==> s[k].parent == k - 1)
    && forall k {:trigger s[k]} :: i <= k <= j ==> s[k].topology == if k < j then 2 else 1
  }

  /** For a line without DC slaves the next open port of the split is taken, once, as it would be for a DC slave
      there: the ports of the split stay in step with its links. */
  lemma {:induction false} LineTakesPort(s: seq<Entry>, i: nat, j: nat, p: nat, hold: nat, k: nat)
    requires ParentsFirst(s) && IsLine(s, i, j, p) && hold < i < k <= j + 1
    ensures var r := SkippedUpto(s, i, k, hold);
            && r.1 == (if k <= j then p else 0)
            && r.0[p] == (if k <= j then s[p] else PortTaken(s[p]))
            && (forall n :: 1 <= n < |s| && n != p && !(i <= n < k) ==> r.0[n] == s[n])
            && forall n :: i <= n < k ==> r.0[n].topology == s[n].topology && r.0[n].parent == s[n].parent
  {
    if k > i + 1 {
      LineTakesPort(s, i, j, p, hold, k - 1);
      assert s[k - 1].parent == k - 2 && s[k - 2].topology == 2;
    } else {
      assert SkippedUpto(s, i, i, hold) == (s, hold);
    }
  }

  /** Not so for a branch that splits again: with two ends behind a slave on the split `p`, both take a port of
      that slave and none of `p`. */
  lemma {:induction false} SplitTakesNone(s: seq<Entry>, i: nat, p: nat, hold: nat)
    requires ParentsFirst(s) && hold < i && 0 < p < i < |s| - 2 && s[p].topology > 2 && s[i].parent == p
    requires s[i].topology == 3 && s[i + 1].parent == i == s[i + 2].parent
             && s[i + 1].topology == 1 == s[i + 2].topology
    ensures var r := SkippedUpto(s, i, i + 3, hold); r.0[p] == s[p] && r.1 == 0
  {
    var a := SkippedUpto(s, i, i + 1, hold);
    assert SkippedUpto(s, i, i, hold) == (s, hold);
    assert a.1 == p && a.0[p] == s[p];
    var b := SkippedUpto(s, i, i + 2, hold);
    assert b.1 == 0 && b.0[p] == s[p] && b.0[i].topology == 3;
  }

  /** A list that agrees in the description of the slaves and in the chain of DC slaves. */
  ghost predicate SameButMeasurement(s: seq<Entry>, t: seq<Entry>) {
    && |s| == |t| && (|s| > 0 ==> s[0] == t[0])
    && forall k :: 1 <= k < |s| ==>
         SameSlave(s[k], t[k]) && s[k].DCnext == t[k].DCnext && s[k].DCprevious == t[k].DCprevious
  }

  lemma {:induction false} ChainIsKept(s: seq<Entry>, t: seq<Entry>, s0: seq<Entry>, i: nat)
    requires |s| == |t| == |s0| && 1 <= i <= |s|
    requires Chained(t, s0, i) && SameButMeasurement(s, t)
    ensures Chained(s, s0, i)
  {
    forall k | 1 <= k < i && s0[k].hasdc
      ensures s[k].DCprevious == PrevDc(s0, k) && s[PrevDc(s0, k)].DCnext == k
    {
    }
  }

  ghost predicate AllHaveDc(s: seq<Entry>) {
    forall k :: 1 <= k < |s| ==> s[k].hasdc
  }

  /** What holds between the slaves: `s0` is the list at the start, slaves before `i` are done. If all slaves
      have DC, the list is that of the pass, apart from the chain. */
  ghost predicate Progress(s: seq<Entry>, s0: seq<Entry>, regs: seq<Latch>, i: nat) {
    && |s| == |s0| == |regs| + 1 && 1 <= i <= |s| && ParentsFirst(s0) && ParentsFirst(s)
    && Untouched(s, s0, i) && Chained(s, s0, i)
    && (AllHaveDc(s0) ==> SameButChain(s, Pass(s0, regs, i)))
  }

  lemma {:induction false} OpenPortsFirst(s: seq<Entry>, s0: seq<Entry>, regs: seq<Latch>, i: nat)
    requires Progress(s, s0, regs, i) && i < |s|
    ensures var t := s[i := s[i].(consumedports := s[i].activeports)];
            ParentsFirst(t) && Chained(t, s0, i) && SameButMeasurement(t, s)
  {
    var t := s[i := s[i].(consumedports := s[i].activeports)];
    ChainIsKept(t, s, s0, i);
  }

  /** The list `u`: the ports of slave `i` have been opened and the slave chained. */
  ghost predicate Linked(u: seq<Entry>, s: seq<Entry>, i: nat)
    requires 1 <= i < |s|
  {
    var t := s[i := s[i].(consumedports := s[i].activeports)];
    SameButChain(u, t) && forall k :: i < k < |s| ==> u[k] == t[k]
  }

  lemma {:induction false} LinkedIsUntouched(s: seq<Entry>, u: seq<Entry>, s0: seq<Entry>, i: nat, latch: Latch)
    requires 1 <= i < |s| && Untouched(s, s0, i) && ParentsFirst(s) && Linked(u, s, i)
    ensures ParentsFirst(u)
    ensures var r := Measure(u, i, latch);
            Untouched(r, s0, i + 1) && ParentsFirst(r) && SameButMeasurement(r, u)
  {
    hide EntryPort, PathDelay;
  }

  /** The measurement neither reads nor writes the chain, and opens the ports of its slave itself. */
  lemma {:induction false} MeasureIgnoresChain(u: seq<Entry>, s: seq<Entry>, m: seq<Entry>, i: nat, latch: Latch)
    requires 1 <= i < |s| && Linked(u, s, i) && SameButChain(s, m) && ParentsFirst(s) && AllHaveDc(m)
    ensures ParentsFirst(u) && ParentsFirst(m) && SameButChain(Measure(u, i, latch), Measure(m, i, latch))
  {
    hide EntryPort, PathDelay;
    var e := EntryPort(m[i].activeports, latch);
    var p := m[i].parent;
    if p > 0 {
      AttachedIgnoresChain(u[p], m[p], Entered(u[i], latch, e), Entered(m[i], latch, e), i - p <= 1);
    }
  }

  lemma {:induction false} AttachedIgnoresChain(parent: Entry, p: Entry, slave: Entry, s: Entry, first: bool)
    requires SameEntry(parent, p) && SameEntry(slave, s)
    ensures SameEntry(Attached(parent, slave, first), Attached(p, s, first))
  {
    hide Int32, Half, PrevPort;
  }

  /** Measuring a chained DC slave finishes it. */
  lemma {:induction false} DcStep(s: seq<Entry>, u: seq<Entry>, s0: seq<Entry>, regs: seq<Latch>, i: nat)
    requires Progress(s, s0, regs, i) && i < |s| && Linked(u, s, i) && Chained(u, s0, i + 1)
    ensures ParentsFirst(u) && Progress(Measure(u, i, regs[i - 1]), s0, regs, i + 1)
  {
    hide Measure, Linked, SameButChain, Chained;
    LinkedIsUntouched(s, u, s0, i, regs[i - 1]);
    ChainIsKept(Measure(u, i, regs[i - 1]), u, s0, i + 1);
    if AllHaveDc(s0) {
      PassKeeps(s0, regs, i);
      MeasureIgnoresChain(u, s, Pass(s0, regs, i), i, regs[i - 1]);
    }
  }

  method DcBranch(slavelist: array<Entry>, grouplist: array<Group>, i: nat, regs: seq<Latch>, prevDCslave: nat,
                  ghost s0: seq<Entry>, ghost g0: seq<Group>)
    requires InGroups(s0, g0) && |s0| == slavelist.Length && i <= |s0| && grouplist[..] == Told(g0, s0, i)
    requires Progress(slavelist[..], s0, regs, i) && i < slavelist.Length
    requires prevDCslave == PrevDc(s0, i) && slavelist[i].hasdc
    modifies slavelist, grouplist
    ensures Progress(slavelist[..], s0, regs, i + 1) && PrevDc(s0, i + 1) == i
    ensures grouplist[..] == Told(g0, s0, i + 1)
  {
    ghost var s := slavelist[..];
    OpenPortsFirst(s, s0, regs, i);
    slavelist[i] := slavelist[i].(consumedports := slavelist[i].activeports);
    ghost var t := slavelist[..];
    assert t == s[i := s[i].(consumedports := s[i].activeports)];
    LinkDc(slavelist, grouplist, i, prevDCslave, s0, g0);
    ghost var u := slavelist[..];
    DcStep(s, u, s0, regs, i);
    MeasureSlave(slavelist, i, regs[i - 1]);
  }

  method PlainBranch(slavelist: array<Entry>, i: nat, regs: seq<Latch>, parenthold: nat, ghost s0: seq<Entry>)
    returns (hold: nat)
    requires Progress(slavelist[..], s0, regs, i) && i < slavelist.Length
    requires parenthold < i && !slavelist[i].hasdc
    modifies slavelist
    ensures hold < i && Progress(slavelist[..], s0, regs, i + 1)
    ensures PrevDc(s0, i + 1) == PrevDc(s0, i) && FirstDc(s0, i + 1) == FirstDc(s0, i)
  {
    ghost var s := slavelist[..];
    hold := SkipSlave(slavelist, i, parenthold);
    SkippedKeeps(s, i, parenthold);
    ChainIsKept(slavelist[..], s, s0, i);
    assert !s0[i].hasdc;
  }

  lemma {:induction false} AtTheStart(s0: seq<Entry>, regs: seq<Latch>)
    requires |s0| == |regs| + 1 && ParentsFirst(s0)
    ensures Progress(s0[0 := s0[0].(hasdc := false)], s0, regs, 1)
  {
  }

  /** One iteration of the main loop. */
  method MeasureNext(slavelist: array<Entry>, grouplist: array<Group>, i: nat, regs: seq<Latch>, parenthold: nat,
                     prevDCslave: nat, ghost s0: seq<Entry>, ghost g0: seq<Group>)
    returns (hold: nat, prev: nat)
    requires InGroups(s0, g0) && |s0| == slavelist.Length && i <= |s0| && grouplist[..] == Told(g0, s0, i)
    requires Progress(slavelist[..], s0, regs, i) && i < slavelist.Length
    requires parenthold < i && prevDCslave == PrevDc(s0, i)
    modifies slavelist, grouplist
    ensures grouplist[..] == Told(g0, s0, i + 1)
    ensures hold <= i && Progress(slavelist[..], s0, regs, i + 1) && prev == PrevDc(s0, i + 1)
  {
    if slavelist[i].hasdc {
      DcBranch(slavelist, grouplist, i, regs, prevDCslave, s0, g0);
      hold, prev := 0, i;
    } else {
      hold := PlainBranch(slavelist, i, regs, parenthold, s0);
      prev := prevDCslave;
    }
  }

  method MeasureAll(slavelist: array<Entry>, grouplist: array<Group>, regs: seq<Latch>, ghost s0: seq<Entry>,
                    ghost g0: seq<Group>)
    requires slavelist.Length == |s0| > 0 && Progress(slavelist[..], s0, regs, 1)
    requires InGroups(s0, g0) && grouplist[..] == Told(g0, s0, 1)
    modifies slavelist, grouplist
    ensures Progress(slavelist[..], s0, regs, |s0|) && grouplist[..] == Told(g0, s0, |s0|)
  {
    hide Progress, PrevDc, Told, InGroups;
    var parenthold: nat, prevDCslave: nat := 0, 0;
    var i := 1;
    while i < slavelist.Length
      invariant 1 <= i <= slavelist.Length
      invariant parenthold < i && prevDCslave == PrevDc(s0, i)
      invariant Progress(slavelist[..], s0, regs, i) && grouplist[..] == Told(g0, s0, i)
    {
      parenthold, prevDCslave := MeasureNext(slavelist, grouplist, i, regs, parenthold, prevDCslave, s0, g0);
      i := i + 1;
    }
  }

  lemma {:induction false} AtTheEnd(s: seq<Entry>, s0: seq<Entry>, regs: seq<Latch>, root: Row)
    requires |s| > 0 && Progress(s, s0, regs, |s|) && Shows(s0, regs, root)
    ensures NoneWraps(regs, root) ==> DelaysAreTrue(s, root)
    ensures Decisive(regs, root) ==> (DelaysAreTrue(s, root) <==> NoneWraps(regs, root))
  {
    hide Pass, NoneWraps, Decisive;
    forall k | 1 <= k < |s| ensures s0[k].hasdc {
      assert SlaveShows(s0[k], regs[k - 1], BusStations(root)[k - 1]);
    }
    PassIsExact(s0, regs, root);
    var r := Pass(s0, regs, |s|);
    assert forall k :: 1 <= k < |s| ==> s[k].pdelay == r[k].pdelay;
  }

  /** ecx_configdc. `regs[k - 1]` are the receive times that slave k has latched. On any bus, DC slaves or
      not, the DC slaves are chained in order, and the group of the first one is told. If all slaves have DC,
      the list is that of the pass. For every bus of DC slaves the delays are then the true ones if no clock
      wraps while the frame is behind its slave, and only then if at most two links lead on from the first
      slave or its clock does not wrap. */
  method Configure(slavelist: array<Entry>, grouplist: array<Group>, regs: seq<Latch>, ghost root: Row)
    returns (hasdc: bool)
    requires slavelist.Length == |regs| + 1 && ParentsFirst(slavelist[..])
    requires InGroups(slavelist[..], grouplist[..])
    modifies slavelist, grouplist
    ensures AllHaveDc(old(slavelist[..])) ==>
              SameButChain(slavelist[..], Pass(old(slavelist[..]), regs, slavelist.Length))
    ensures Shows(old(slavelist[..]), regs, root) && NoneWraps(regs, root) ==> DelaysAreTrue(slavelist[..], root)
    ensures Shows(old(slavelist[..]), regs, root) && Decisive(regs, root) ==>
              (DelaysAreTrue(slavelist[..], root) <==> NoneWraps(regs, root))
    ensures Chained(slavelist[..], old(slavelist[..]), slavelist.Length)
    ensures grouplist[..] == Told(old(grouplist[..]), old(slavelist[..]), slavelist.Length)
    ensures hasdc <==> PrevDc(old(slavelist[..]), slavelist.Length) > 0
  {
    hide Pass, Shows, NoneWraps, Decisive, DelaysAreTrue;
    ghost var s0, g0 := slavelist[..], grouplist[..];
    slavelist[0] := slavelist[0].(hasdc := false);
    grouplist[0] := grouplist[0].(hasdc := false);
    assert slavelist[..] == s0[0 := s0[0].(hasdc := false)];
    AtTheStart(s0, regs);
    MeasureAll(slavelist, grouplist, regs, s0, g0);
    if Shows(s0, regs, root) {
      AtTheEnd(slavelist[..], s0, regs, root);
    }
    hasdc := slavelist[0].hasdc;
  }

  /** The slave list entry of a DC slave in group 0 as ecx_config_init leaves it. */
  function Initial(e: ParentScan.Entry): Entry {
    Entry(true, 0, e.topology, e.activeports, e.parent, NO_PORTS, 0, 0, Latch(0, 0, 0, 0), 0, 0, 0)
  }

  /** What ecx_config_init leaves behind is what the measurement needs. */
  lemma {:induction false} InitialShows(s: seq<Entry>, found: seq<ParentScan.Entry>, regs: seq<Latch>, root: Row)
    requires IsBus(root) && |s| == |found| == |regs| + 1 == Size(root) + 1 && RoundTrip(root.below) < TWO31
    requires forall k :: 0 <= k < |s| ==> s[k] == Initial(found[k])
    requires forall k {:trigger found[k]} :: 1 <= k < |s| ==> var slave := BusStations(root)[k - 1];
               found[k] == ParentScan.Entry(Active(slave), Active(slave).Count(), slave.parent)
    requires forall k {:trigger regs[k]} :: 0 <= k < |regs| ==> var slave := BusStations(root)[k];
               LatchedBy(regs[k], slave)
    ensures Shows(s, regs, root) && ParentsFirst(s) && InGroups(s, [Group(false, 0)])
  {
    BusIsPlaced(root);
    forall k | 1 <= k < |s| ensures SlaveShows(s[k], regs[k - 1], BusStations(root)[k - 1]) && s[k].parent < k {
      assert s[k] == Initial(found[k]);
      if k > 1 {
        BusRest(root, k);
      }
    }
  }

  /** What the master can see of a bus: the DL status and the latched times of every slave. */
  ghost predicate Seen(dlstat: seq<nat>, regs: seq<Latch>, root: Row) {
    && IsBus(root) && |dlstat| == |regs| == Size(root) && RoundTrip(root.below) < TWO31
    && (forall k {:trigger dlstat[k]} :: 0 <= k < |dlstat| ==>
          StatusOf(dlstat[k], BusStations(root)[k]))
    && (forall k {:trigger regs[k]} :: 0 <= k < |regs| ==> LatchedBy(regs[k], BusStations(root)[k]))
  }

  /** The first pass over a bus of DC slaves. */
  method ListSlaves(dlstat: seq<nat>, ghost regs: seq<Latch>, ghost root: Row) returns (slavelist: array<Entry>)
    requires Seen(dlstat, regs, root)
    ensures fresh(slavelist) && slavelist.Length == |dlstat| + 1
    ensures Shows(slavelist[..], regs, root) && ParentsFirst(slavelist[..])
    ensures InGroups(slavelist[..], [Group(false, 0)])
  {
    hide StatusOf, Active, LatchedBy, Shows, ParentsFirst, InGroups;
    var n := |dlstat|;
    var found := new ParentScan.Entry[n + 1](_ => ParentScan.Entry(NO_PORTS, 0, 0));
    ParentScan.ConfigInit(found, dlstat, root);
    slavelist := new Entry[n + 1](k requires 0 <= k <= n reads found => Initial(found[k]));
    InitialShows(slavelist[..], found[..], regs, root);
  }

  /** Both passes over a bus of DC slaves: the master sees only port maps and latched times, knows
      neither the tree nor the link delays, and still gets the true delay of every slave. */
  method FindDelays(dlstat: seq<nat>, regs: seq<Latch>, ghost root: Row) returns (delays: seq<int>)
    requires Seen(dlstat, regs, root)
    ensures |delays| == Size(root)
    ensures NoneWraps(regs, root) ==> AllTrue(delays, root)
    ensures Decisive(regs, root) ==> (AllTrue(delays, root) <==> NoneWraps(regs, root))
  {
    hide NoneWraps, Decisive, Shows, SlaveShows, Chained, ParentsFirst, PrevDc;
    hide InGroups, Told, Pass, AllHaveDc, SameButChain, TrueDelay;
    var n := |dlstat|;
    var slavelist := ListSlaves(dlstat, regs, root);
    var grouplist := new Group[1](_ => Group(false, 0));
    assert grouplist[..] == [Group(false, 0)];
    var hasdc := Configure(slavelist, grouplist, regs, root);
    delays := seq(n, k requires 0 <= k < n reads slavelist => slavelist[k + 1].pdelay);
    DelaysOf(slavelist[..], delays, root);
  }

  ghost predicate AllTrue(delays: seq<int>, root: Row)
    requires IsBus(root) && |delays| == Size(root)
  {
    forall k {:trigger delays[k]} :: 0 <= k < |delays| ==> delays[k] == TrueDelay(root, k + 1)
  }

  lemma {:induction false} DelaysOf(s: seq<Entry>, delays: seq<int>, root: Row)
    requires IsBus(root) && |s| == |delays| + 1 == Size(root) + 1
    requires forall k {:trigger delays[k]} :: 0 <= k < |delays| ==> delays[k] == s[k + 1].pdelay
    ensures AllTrue(delays, root) <==> DelaysAreTrue(s, root)
  {
    hide TrueDelay;
    if AllTrue(delays, root) {
      forall k | 1 <= k < |s| ensures s[k].pdelay == TrueDelay(root, k) {
        assert delays[k - 1] == TrueDelay(root, k);
      }
    }
  }
}
