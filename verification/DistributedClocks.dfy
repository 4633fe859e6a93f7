/** Measuring the propagation delay of every distributed-clock slave (ecx_configdc). */
module DistributedClocks {
  import opened Topology
  import opened PortOrder

  /** The receive times latched by one slave, as the signed 32-bit numbers the master reads. */
  datatype Latch = Latch(a: int, b: int, c: int, d: int) {
    /** ecx_porttime */
    function Port(port: nat): int {
      match port
      case 0 => a
      case 1 => b
      case 2 => c
      case 3 => d
      case _ => 0
    }
  }

  /** The fields of a slave list entry that the delay measurement reads and writes. */
  datatype Entry = Entry(
    hasdc: bool, group: nat, topology: int, activeports: PortMap, parent: nat,
    consumedports: PortMap, parentport: nat, entryport: nat,
    rt: Latch, pdelay: int, DCnext: nat, DCprevious: nat)

  const TWO31: int := 0x8000_0000
  const TWO32: int := 0x1_0000_0000

  /** Reduction to a signed 32-bit number. */
  function Int32(x: int): int {
    (x + TWO31) % TWO32 - TWO31
  }

  /** Division by two as C does it, towards zero. */
  function Half(x: int): int {
    if x >= 0 then x / 2 else -(-x / 2)
  }

  /** ecx_prevport: the active port a frame passes before `port`. */
  function PrevPort(active: PortMap, port: nat): nat {
    match port
    case 0 => if active.p2 then 2 else if active.p1 then 1 else if active.p3 then 3 else 0
    case 1 => if active.p3 then 3 else if active.p0 then 0 else if active.p2 then 2 else 1
    case 2 => if active.p1 then 1 else if active.p3 then 3 else if active.p0 then 0 else 2
    case 3 => if active.p0 then 0 else if active.p2 then 2 else if active.p1 then 1 else 3
    case _ => port
  }

  /** How many ports on `port` comes behind `other` in the order of the frame, which begins again behind the last. */
  function Behind(other: nat, port: nat): nat { (4 + Rank(port) - Rank(other)) % 4 }

  /** On any slave: the nearest active port before `port` in the order of the frame, or `port` itself if there is no
      other. */
  lemma {:induction false} PrevPortIsNearest(active: PortMap, port: nat)
    requires port <= 3
    ensures var q := PrevPort(active, port);
            && (q != port ==> active.Has(q))
            && (q == port ==> forall r: nat :: r <= 3 && active.Has(r) ==> r == port)
            && forall r: nat :: r <= 3 && r != port && active.Has(r) ==> Behind(q, port) <= Behind(r, port)
  {
  }

  /** The port that ecx_parentport hands out: search order 3 - 1 - 2 - 0. */
  function FirstOpen(open: PortMap): nat {
    if open.p3 then 3 else if open.p1 then 1 else if open.p2 then 2 else 0
  }

  /** ecx_parentport: consume the first open port of `parent` and return it. */
  method ParentPort(slavelist: array<Entry>, parent: nat) returns (port: nat)
    requires parent < slavelist.Length
    modifies slavelist
    ensures port == FirstOpen(old(slavelist[parent].consumedports))
    ensures slavelist[..] == old(slavelist[..])[parent := old(slavelist[parent]).(
              consumedports := old(slavelist[parent].consumedports).Without(port))]
  {
    port := 0;
    var b := slavelist[parent].consumedports;
    if b.p3 {
      port := 3;
      b := b.(p3 := false);
    } else if b.p1 {
      port := 1;
      b := b.(p1 := false);
    } else if b.p2 {
      port := 2;
      b := b.(p2 := false);
    } else if b.p0 {
      port := 0;
      b := b.(p0 := false);
    }
    slavelist[parent] := slavelist[parent].(consumedports := b);
  }

  /** The active port `port` has the lowest receive time, and is the first such port in the order of the
      frame. */
  ghost predicate Lowest(active: PortMap, rt: Latch, port: nat) {
    && active.Has(port)
    && forall q :: active.Has(q) ==>
         rt.Port(port) <= rt.Port(q) && (rt.Port(q) == rt.Port(port) ==> Rank(port) <= Rank(q))
  }

  lemma {:induction false} OneLowest(active: PortMap, rt: Latch, port: nat, other: nat)
    requires Lowest(active, rt, port) && Lowest(active, rt, other)
    ensures port == other
  {
  }

  /** The port through which the master thinks the frame has entered: that with the lowest time stamp. */
  ghost function EntryPort(active: PortMap, rt: Latch): nat {
    if Lowest(active, rt, 3) then 3 else if Lowest(active, rt, 1) then 1 else if Lowest(active, rt, 2) then 2 else 0
  }

  /** The search for the entry port. A slave without active ports gets port 0; the list then has nothing
      to look up. */
  method FindEntryPort(active: PortMap, rt: Latch) returns (entryport: nat)
    ensures entryport == EntryPort(active, rt)
    ensures active.Count() > 0 ==> Lowest(active, rt, entryport)
  {
    var plist: seq<nat>, tlist := [], [];
    if active.p0 { plist, tlist := plist + [0], tlist + [rt.a]; }
    if active.p3 { plist, tlist := plist + [3], tlist + [rt.d]; }
    if active.p1 { plist, tlist := plist + [1], tlist + [rt.b]; }
    if active.p2 { plist, tlist := plist + [2], tlist + [rt.c]; }
    var nlist := |plist|;
    if nlist == 0 { return 0; }
    var e := 0;
    if nlist > 1 && tlist[1] < tlist[e] { e := 1; }
    if nlist > 2 && tlist[2] < tlist[e] { e := 2; }
    if nlist > 3 && tlist[3] < tlist[e] { e := 3; }
    entryport := plist[e];
  }

  /** The span of a slave's stamps from the port before `port` up to `port`. */
  function SpanAt(slave: Entry, port: nat): int {
    Int32(slave.rt.Port(port) - slave.rt.Port(PrevPort(slave.activeports, port)))
  }

  /** The span of a slave's stamps from its entry port to the port before `port`. */
  function SpanBefore(slave: Entry, port: nat): int {
    Int32(slave.rt.Port(PrevPort(slave.activeports, port)) - slave.rt.Port(slave.entryport))
  }

  /** What the stamps of a slave say about the time the frame spends behind it. */
  function Inside(slave: Entry): int {
    if slave.topology > 1 then SpanBefore(slave, slave.entryport) else 0
  }

  /** The delay of a slave from the time stamps of its own ports and of its DC parent's ports.
      `first` says that it is the slave right after its parent. */
  function PathDelay(parent: Entry, slave: Entry, first: bool): int {
    var dt3 := SpanAt(parent, slave.parentport);
    // the delays of the slave's own children need to be subtracted
    var inner := Inside(slave);
    var dt1 := if inner > dt3 then -inner else inner;
    // the delays of the parent's earlier children need to be added
    var earlier := if first then 0 else SpanBefore(parent, slave.parentport);
    var dt2 := if earlier < 0 then -earlier else earlier;
    Int32(Half(dt3 - dt1) + dt2 + parent.pdelay)
  }

  /** Taking in the latched times of a slave. */
  function Entered(s: Entry, rt: Latch, entryport: nat): Entry {
    s.(rt := rt, entryport := entryport, consumedports := s.activeports.Without(entryport))
  }

  /** Attaching a slave to its DC parent. */
  function Attached(parent: Entry, s: Entry, first: bool): Entry {
    var port := if parent.topology == 1 then parent.entryport else FirstOpen(parent.consumedports);
    var s1 := s.(parentport := port);
    s1.(pdelay := PathDelay(parent, s1, first))
  }

  function PortTaken(parent: Entry): Entry {
    parent.(consumedports := parent.consumedports.Without(FirstOpen(parent.consumedports)))
  }

  ghost predicate ParentsFirst(s: seq<Entry>) {
    forall k :: 1 <= k < |s| ==> s[k].parent < k
  }

  /** The nearest DC slave above slave `i`, or 0, and the slave below it on the way to slave `i`. */
  function DcParent(s: seq<Entry>, i: nat): (r: (nat, nat))
    requires 1 <= i < |s| && ParentsFirst(s)
    ensures r.0 < r.1 <= i && r.0 == s[r.1].parent && (r.0 > 0 ==> s[r.0].hasdc)
    ensures s[i].parent == 0 || s[s[i].parent].hasdc ==> r == (s[i].parent, i)
  {
    var parent := s[i].parent;
    if parent == 0 || s[parent].hasdc then (parent, i) else DcParent(s, parent)
  }

  /** The nearest DC slave depends on parents and clocks only. */
  lemma {:induction false} SameDcParent(s: seq<Entry>, t: seq<Entry>, i: nat)
    requires 1 <= i < |s| == |t| && ParentsFirst(s)
    requires forall k :: 1 <= k < |s| ==> t[k].parent == s[k].parent && t[k].hasdc == s[k].hasdc
    ensures ParentsFirst(t) && DcParent(t, i) == DcParent(s, i)
  {
    if s[i].parent != 0 && !s[s[i].parent].hasdc {
      SameDcParent(s, t, s[i].parent);
    }
  }

  /** Walk up from slave `i` to the nearest DC slave; `child` is the last slave passed. */
  method FindDcParent(slavelist: array<Entry>, i: nat) returns (parent: nat, child: nat)
    requires 1 <= i < slavelist.Length && ParentsFirst(slavelist[..])
    ensures (parent, child) == DcParent(slavelist[..], i)
  {
    child := i;
    parent := slavelist[i].parent;
    while !(parent == 0 || slavelist[parent].hasdc)
      invariant parent < child <= i && parent == slavelist[child].parent
      invariant DcParent(slavelist[..], child) == DcParent(slavelist[..], i)
      decreases parent
    {
      child := parent;
      parent := slavelist[parent].parent;
    }
  }

  /** Find the port on the DC parent that the slave is connected to, and compute its delay. */
  method AttachSlave(slavelist: array<Entry>, i: nat, parent: nat, first: bool)
    requires parent < i < slavelist.Length
    modifies slavelist
    ensures slavelist[..] == old(slavelist[..])[parent := PortTaken(old(slavelist[parent]))]
                               [i := Attached(old(slavelist[parent]), old(slavelist[i]), first)]
  {
    hide Int32, Half, PrevPort;
    ghost var p0 := slavelist[parent];
    var s := slavelist[i];
    var port := ParentPort(slavelist, parent);
    var p := slavelist[parent];
    if p.topology == 1 {
      port := p.entryport;
    }
    s := s.(parentport := port);
    assert PathDelay(p, s, first) == PathDelay(p0, s, first);
    slavelist[i] := s.(pdelay := PathDelay(p, s, first));
  }

  /** The slave list after the work for one DC slave. */
  ghost function Measure(s: seq<Entry>, i: nat, latch: Latch): (r: seq<Entry>)
    requires 1 <= i < |s| && ParentsFirst(s)
    ensures |r| == |s| && ParentsFirst(r)
  {
    var entered := Entered(s[i], latch, EntryPort(s[i].activeports, latch));
    var (parent, child) := DcParent(s, i);
    if parent == 0 then s[i := entered]
    else s[parent := PortTaken(s[parent])][i := Attached(s[parent], entered, child - parent <= 1)]
  }

  /** The work of ecx_configdc for one DC slave. */
  method MeasureSlave(slavelist: array<Entry>, i: nat, latch: Latch)
    requires 1 <= i < slavelist.Length && ParentsFirst(slavelist[..])
    modifies slavelist
    ensures slavelist[..] == Measure(old(slavelist[..]), i, latch)
  {
    ghost var s0 := slavelist[..];
    var entryport := FindEntryPort(slavelist[i].activeports, latch);
    slavelist[i] := Entered(slavelist[i], latch, entryport);
    assert slavelist[..] == s0[i := Entered(s0[i], latch, entryport)];
    SameDcParent(s0, slavelist[..], i);
    var parent, child := FindDcParent(slavelist, i);
    if parent > 0 {
      AttachSlave(slavelist, i, parent, child - parent <= 1);
    }
  }
}
