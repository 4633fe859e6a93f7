/** What the EEPROM of a slave holds: the coding of sections and of PDO descriptions, and that the master reads
    from it what was put in. */
module SiiImage {
  import opened Memory
  import opened Numbers
  import opened SiiCache
  import opened SiiWalk

  /** An entry of a PDO: an object of the slave, and how many bits of it are transferred. */
  datatype Entry = Entry(index: word, subindex: byte, name: byte, dataType: byte, bitLength: byte, flags: word)

  type Entries = es: seq<Entry> | |es| < 256

  /** A PDO, and the sync manager that carries it. */
  datatype Pdo = Pdo(index: word, syncM: byte, synchronisation: byte, name: byte, flags: word, entries: Entries)

  datatype Section = Section(category: word, data: seq<byte>)

  function EntryBytes(e: Entry): (b: seq<byte>)
    ensures |b| == 8
  {
    Little(e.index, 2) + [e.subindex, e.name, e.dataType, e.bitLength] + Little(e.flags, 2)
  }

  function AllEntries(es: seq<Entry>): (b: seq<byte>)
    ensures |b| == 8 * |es|
  {
    if es == [] then [] else EntryBytes(es[0]) + AllEntries(es[1..])
  }

  function PdoHead(p: Pdo): (b: seq<byte>)
    ensures |b| == 8
  {
    Little(p.index, 2) + [|p.entries|, p.syncM, p.synchronisation, p.name] + Little(p.flags, 2)
  }

  function PdoBytes(p: Pdo): (b: seq<byte>)
    ensures |b| == 8 + 8 * |p.entries|
  {
    PdoHead(p) + AllEntries(p.entries)
  }

  function AllPdos(ps: seq<Pdo>): seq<byte> {
    if ps == [] then [] else PdoBytes(ps[0]) + AllPdos(ps[1..])
  }

  /** Category, number of words, data. */
  function SectionBytes(s: Section): (b: seq<byte>)
    ensures |b| == 4 + |s.data|
  {
    Little(s.category, 2) + Little(|s.data| / 2, 2) + s.data
  }

  /** All sections and the end mark. */
  function Image(ss: seq<Section>): seq<byte> {
    if ss == [] then [0xff, 0xff] else SectionBytes(ss[0]) + Image(ss[1..])
  }

  predicate ProperSection(s: Section) { s.category != 0xffff && |s.data| % 2 == 0 && |s.data| / 2 < 65536 }

  predicate ProperSections(ss: seq<Section>) { forall i :: 0 <= i < |ss| ==> ProperSection(ss[i]) }

  /** The first section of a category, or the number of all of them. */
  function FirstOf(ss: seq<Section>, category: nat): (i: nat)
    ensures i <= |ss|
    ensures i < |ss| ==> ss[i].category == category
    ensures forall j :: 0 <= j < i ==> ss[j].category != category
  {
    if ss == [] || ss[0].category == category then 0 else 1 + FirstOf(ss[1..], category)
  }

  /** The bits of some entries, of a PDO, and of some PDOs: one that no sync manager carries has none. */
  function LengthSum(es: seq<Entry>, k: nat): nat
    requires k <= |es|
  {
    if k == 0 then 0 else LengthSum(es, k - 1) + es[k - 1].bitLength
  }

  function Size(p: Pdo): nat { if p.syncM < 8 then LengthSum(p.entries, |p.entries|) else 0 }

  function SizeSum(ps: seq<Pdo>, k: nat): nat
    requires k <= |ps|
  {
    if k == 0 then 0 else SizeSum(ps, k - 1) + Size(ps[k - 1])
  }

  /** The bits of the PDOs that one sync manager carries. */
  function CarriedBy(ps: seq<Pdo>, k: nat, sm: nat): nat
    requires k <= |ps|
  {
    if k == 0 then 0 else CarriedBy(ps, k - 1, sm) + (if ps[k - 1].syncM == sm then Size(ps[k - 1]) else 0)
  }

  /** The EEPROM holds some bytes from address `a` on. */
  ghost predicate Holds(c: Cache, slave: nat, a: nat, b: seq<byte>) {
    forall i {:trigger b[i]} :: 0 <= i < |b| ==> c.Direct(slave, a + i) == b[i]
  }

  lemma {:induction false} HoldsParts(c: Cache, slave: nat, a: nat, b: seq<byte>, d: seq<byte>)
    requires Holds(c, slave, a, b + d)
    ensures Holds(c, slave, a, b) && Holds(c, slave, a + |b|, d)
  {
    forall i | 0 <= i < |b| ensures c.Direct(slave, a + i) == b[i] {
      assert (b + d)[i] == b[i];
    }
    forall i | 0 <= i < |d| ensures c.Direct(slave, a + |b| + i) == d[i] {
      assert (b + d)[|b| + i] == d[i];
    }
  }

  lemma {:induction false} HoldsByte(c: Cache, slave: nat, a: nat, b: seq<byte>, i: nat)
    requires Holds(c, slave, a, b) && i < |b|
    ensures c.Direct(slave, a + i) == b[i]
  {
  }

  lemma {:induction false} HoldsWord(c: Cache, slave: nat, a: nat, w: word, rest: seq<byte>)
    requires Holds(c, slave, a, Little(w, 2) + rest)
    ensures WordAt(c, slave, a) == w && Holds(c, slave, a + 2, rest)
  {
    hide Cache.Direct;
    LittleTwo(w);
    HoldsParts(c, slave, a, Little(w, 2), rest);
    HoldsByte(c, slave, a, Little(w, 2), 0);
    HoldsByte(c, slave, a, Little(w, 2), 1);
  }

  /** Entry `k` of a PDO. */
  lemma {:induction false} EntryHeld(c: Cache, slave: nat, a: nat, es: seq<Entry>, k: nat)
    requires Holds(c, slave, a, AllEntries(es)) && k < |es|
    ensures Holds(c, slave, a + 8 * k, EntryBytes(es[k]))
    decreases k
  {
    hide Holds, EntryBytes;
    HoldsParts(c, slave, a, EntryBytes(es[0]), AllEntries(es[1..]));
    if k > 0 {
      EntryHeld(c, slave, a + 8, es[1..], k - 1);
    }
  }

  lemma {:induction false} BitLengthHeld(c: Cache, slave: nat, a: nat, e: Entry)
    requires Holds(c, slave, a, EntryBytes(e))
    ensures c.Direct(slave, a + 5) == e.bitLength
  {
    hide Cache.Direct, Little;
    HoldsByte(c, slave, a, EntryBytes(e), 5);
  }

  lemma {:induction false} EntriesAreRead(c: Cache, slave: nat, p: nat, es: seq<Entry>, k: nat)
    requires Holds(c, slave, p + 8, AllEntries(es)) && k <= |es|
    ensures EntryBits(c, slave, p, k) == LengthSum(es, k)
  {
    hide Holds, AllEntries, Cache.Direct;
    if k > 0 {
      EntriesAreRead(c, slave, p, es, k - 1);
      EntryHeld(c, slave, p + 8, es, k - 1);
      BitLengthHeld(c, slave, p + 8 + 8 * (k - 1), es[k - 1]);
    }
  }

  /** A PDO description is read as the PDO that was put in. */
  lemma {:induction false} PdoIsRead(c: Cache, slave: nat, a: nat, p: Pdo)
    requires Holds(c, slave, a, PdoBytes(p))
    ensures WordAt(c, slave, a) == p.index && SyncM(c, slave, a) == p.syncM
    ensures SiiWalk.Entries(c, slave, a) == |p.entries| && BitsOf(c, slave, a) == Size(p)
  {
    HeadIsRead(c, slave, a, p);
    hide Holds, AllEntries, PdoHead, Cache.Direct, WordAt, SyncM, SiiWalk.Entries, EntryBits, LengthSum;
    HoldsParts(c, slave, a, PdoHead(p), AllEntries(p.entries));
    EntriesAreRead(c, slave, a, p.entries, |p.entries|);
  }

  lemma {:induction false} HeadIsRead(c: Cache, slave: nat, a: nat, p: Pdo)
    requires Holds(c, slave, a, PdoBytes(p))
    ensures WordAt(c, slave, a) == p.index && SyncM(c, slave, a) == p.syncM
    ensures SiiWalk.Entries(c, slave, a) == |p.entries|
  {
    hide Holds, AllEntries, Cache.Direct, Little, WordAt;
    HoldsParts(c, slave, a, PdoHead(p), AllEntries(p.entries));
    HoldsByte(c, slave, a, PdoHead(p), 2);
    HoldsByte(c, slave, a, PdoHead(p), 3);
    var rest := [|p.entries|, p.syncM, p.synchronisation, p.name] + Little(p.flags, 2);
    assert PdoHead(p) == Little(p.index, 2) + rest;
    HoldsWord(c, slave, a, p.index, rest);
  }

  /** The addresses of PDO descriptions from `a` on, and the one behind them. */
  function PdoAddrs(ps: seq<Pdo>, a: nat): (r: seq<nat>)
    ensures |r| == |ps| + 1 && r[0] == a
  {
    if ps == [] then [a] else [a] + PdoAddrs(ps[1..], a + |PdoBytes(ps[0])|)
  }

  lemma {:induction false} PdoHeld(c: Cache, slave: nat, a: nat, ps: seq<Pdo>, k: nat)
    requires Holds(c, slave, a, AllPdos(ps)) && k < |ps|
    ensures Holds(c, slave, PdoAddrs(ps, a)[k], PdoBytes(ps[k]))
    ensures PdoAddrs(ps, a)[k + 1] == PdoAddrs(ps, a)[k] + 8 + 8 * |ps[k].entries|
    decreases k
  {
    hide Holds, PdoBytes;
    HoldsParts(c, slave, a, PdoBytes(ps[0]), AllPdos(ps[1..]));
    if k > 0 {
      PdoHeld(c, slave, a + |PdoBytes(ps[0])|, ps[1..], k - 1);
    }
  }

  lemma {:induction false} PdosEnd(ps: seq<Pdo>, a: nat)
    ensures PdoAddrs(ps, a)[|ps|] == a + |AllPdos(ps)|
  {
    hide PdoAddrs, AllPdos;
    FirstPdo(ps, a);
    if ps != [] {
      PdosEnd(ps[1..], a + |PdoBytes(ps[0])|);
    }
  }

  lemma {:induction false} FirstPdo(ps: seq<Pdo>, a: nat)
    ensures ps == [] ==> AllPdos(ps) == []
    ensures ps != [] ==>
              && PdoAddrs(ps, a) == [a] + PdoAddrs(ps[1..], a + |PdoBytes(ps[0])|)
              && AllPdos(ps) == PdoBytes(ps[0]) + AllPdos(ps[1..])
  {
    hide PdoBytes;
  }

  /** A PDO of the list, as it is read. */
  lemma {:induction false} NthPdoIsRead(c: Cache, slave: nat, a: nat, ps: seq<Pdo>, k: nat)
    requires Holds(c, slave, a, AllPdos(ps)) && k < |ps|
    ensures var p := PdoAddrs(ps, a)[k];
            && WordAt(c, slave, p) == ps[k].index && SyncM(c, slave, p) == ps[k].syncM
            && BitsOf(c, slave, p) == Size(ps[k]) && Follows(c, slave, PdoAddrs(ps, a), k)
  {
    hide Holds, PdoBytes, PdoAddrs, Size, WordAt, SyncM, BitsOf, AllPdos, SiiWalk.Entries;
    PdoHeld(c, slave, a, ps, k);
    PdoIsRead(c, slave, PdoAddrs(ps, a)[k], ps[k]);
  }

  /** What the sums over PDOs read from the EEPROM are. */
  lemma {:induction false} SumsAreRead(c: Cache, slave: nat, a: nat, ps: seq<Pdo>, k: nat, sm: nat)
    requires Holds(c, slave, a, AllPdos(ps)) && k <= |ps|
    ensures ActiveBits(c, slave, PdoAddrs(ps, a), k) == SizeSum(ps, k)
    ensures SmBits(c, slave, PdoAddrs(ps, a), k, sm) == CarriedBy(ps, k, sm)
  {
    hide Holds, PdoAddrs, Size, SyncM, BitsOf, AllPdos, WordAt;
    if k > 0 {
      SumsAreRead(c, slave, a, ps, k - 1, sm);
      NthPdoIsRead(c, slave, a, ps, k - 1);
    }
  }

  /** A section with PDOs has the form that the walk relies on. */
  lemma {:induction false} PdosAreSection(c: Cache, slave: nat, start: nat, ps: seq<Pdo>)
    requires Holds(c, slave, start + 2, AllPdos(ps)) && ps != [] && start + 2 + |AllPdos(ps)| <= 4090
    requires |AllPdos(ps)| == 2 * WordAt(c, slave, start)
    ensures IsPdoSection(c, slave, PdoAddrs(ps, start + 2), start)
  {
    hide Holds, PdoAddrs, AllPdos, WordAt, Follows;
    var addrs := PdoAddrs(ps, start + 2);
    forall i {:trigger Follows(c, slave, addrs, i)} | 0 <= i < |addrs| - 1 ensures Follows(c, slave, addrs, i) {
      NthPdoIsRead(c, slave, start + 2, ps, i);
    }
    PdosEnd(ps, start + 2);
  }

  /** The addresses of sections from `a` on, and that of the end mark. */
  function SectionAddrs(ss: seq<Section>, a: nat): (r: seq<nat>)
    ensures |r| == |ss| + 1 && r[0] == a
  {
    if ss == [] then [a] else [a] + SectionAddrs(ss[1..], a + |SectionBytes(ss[0])|)
  }

  lemma {:induction false} SectionHeld(c: Cache, slave: nat, a: nat, ss: seq<Section>, k: nat)
    requires Holds(c, slave, a, Image(ss)) && k < |ss|
    ensures Holds(c, slave, SectionAddrs(ss, a)[k], SectionBytes(ss[k]))
    ensures SectionAddrs(ss, a)[k + 1] == SectionAddrs(ss, a)[k] + 4 + |ss[k].data|
    decreases k
  {
    hide Holds, SectionBytes;
    HoldsParts(c, slave, a, SectionBytes(ss[0]), Image(ss[1..]));
    if k > 0 {
      SectionHeld(c, slave, a + |SectionBytes(ss[0])|, ss[1..], k - 1);
    }
  }

  /** A section of the image, as it is read. */
  lemma {:induction false} SectionIsRead(c: Cache, slave: nat, a: nat, ss: seq<Section>, k: nat)
    requires Holds(c, slave, a, Image(ss)) && ProperSections(ss) && k < |ss|
    ensures var s := SectionAddrs(ss, a)[k];
            && WordAt(c, slave, s) == ss[k].category && 2 * WordAt(c, slave, s + 2) == |ss[k].data|
            && SectionAddrs(ss, a)[k + 1] == s + 4 + |ss[k].data| && Holds(c, slave, s + 4, ss[k].data)
  {
    hide Holds, Image, SectionAddrs, Little, WordAt;
    SectionHeld(c, slave, a, ss, k);
    assert ProperSection(ss[k]);
    var s, words := SectionAddrs(ss, a)[k], |ss[k].data| / 2;
    assert SectionBytes(ss[k]) == Little(ss[k].category, 2) + (Little(words, 2) + ss[k].data);
    HoldsWord(c, slave, s, ss[k].category, Little(words, 2) + ss[k].data);
    HoldsWord(c, slave, s + 2, words, ss[k].data);
  }

  lemma {:induction false} EndIsRead(c: Cache, slave: nat, a: nat, ss: seq<Section>)
    requires Holds(c, slave, a, Image(ss))
    ensures WordAt(c, slave, SectionAddrs(ss, a)[|ss|]) == 0xffff
    ensures SectionAddrs(ss, a)[|ss|] == a + |Image(ss)| - 2
    decreases |ss|
  {
    hide SectionBytes;
    if ss != [] {
      HoldsParts(c, slave, a, SectionBytes(ss[0]), Image(ss[1..]));
      EndIsRead(c, slave, a + |SectionBytes(ss[0])|, ss[1..]);
    } else {
      HoldsByte(c, slave, a, [0xff, 0xff], 0);
      HoldsByte(c, slave, a, [0xff, 0xff], 1);
    }
  }

  lemma {:induction false} AddrsGrow(ss: seq<Section>, a: nat, k: nat)
    requires k <= |ss|
    ensures a <= SectionAddrs(ss, a)[k] <= SectionAddrs(ss, a)[|ss|]
    decreases |ss|
  {
    if ss != [] {
      if k > 0 {
        AddrsGrow(ss[1..], a + |SectionBytes(ss[0])|, k - 1);
      } else {
        AddrsGrow(ss[1..], a + |SectionBytes(ss[0])|, 0);
      }
    }
  }

  /** The sections form a chain as the search relies on it. */
  lemma {:induction false} ImageIsChain(c: Cache, slave: nat, ss: seq<Section>)
    requires Holds(c, slave, 0x80, Image(ss)) && ProperSections(ss) && 0x80 + |Image(ss)| + 2 <= 4090
    ensures IsChain(c, slave, SectionAddrs(ss, 0x80), 0x80)
  {
    hide Holds, Image, SectionAddrs, WordAt, Leads;
    var addrs := SectionAddrs(ss, 0x80);
    forall i {:trigger addrs[i]} | 0 <= i < |addrs|
      ensures InReach(addrs[i]) && (WordAt(c, slave, addrs[i]) == 0xffff <==> i == |addrs| - 1)
    {
      AddrsGrow(ss, 0x80, i);
      EndIsRead(c, slave, 0x80, ss);
      if i < |ss| {
        SectionIsRead(c, slave, 0x80, ss, i);
        assert ProperSection(ss[i]);
      }
    }
    forall i {:trigger Leads(c, slave, addrs, i)} | 0 <= i < |addrs| - 1 ensures Leads(c, slave, addrs, i) {
      SectionLeads(c, slave, ss, i);
    }
  }

  lemma {:induction false} SectionLeads(c: Cache, slave: nat, ss: seq<Section>, i: nat)
    requires Holds(c, slave, 0x80, Image(ss)) && ProperSections(ss) && i < |ss|
    ensures Leads(c, slave, SectionAddrs(ss, 0x80), i)
  {
    hide Holds, Image, SectionAddrs, WordAt;
    SectionIsRead(c, slave, 0x80, ss, i);
  }

  /** The search finds the first section of a category. */
  lemma {:induction false} SectionIsFound(c: Cache, slave: nat, ss: seq<Section>, i: nat, category: word)
    requires Holds(c, slave, 0x80, Image(ss)) && ProperSections(ss) && category != 0xffff
    requires i <= FirstOf(ss, category)
    ensures var addrs, k := SectionAddrs(ss, 0x80), FirstOf(ss, category);
            Find(c, slave, addrs, i, category) == if k < |ss| then addrs[k] + 2 else 0
    decreases |ss| - i
  {
    hide Holds, Image, SectionAddrs, WordAt;
    var addrs, k := SectionAddrs(ss, 0x80), FirstOf(ss, category);
    if i < |ss| {
      SectionIsRead(c, slave, 0x80, ss, i);
      if i < k {
        SectionIsFound(c, slave, ss, i + 1, category);
      }
    } else {
      EndIsRead(c, slave, 0x80, ss);
      assert Find(c, slave, addrs, i + 1, category) == 0;
    }
  }

  /** PDO `n` of a table is a PDO of the slave. */
  ghost predicate Lists(t: Table, p: Pdo, n: nat)
    requires Sized(t) && n < EC_MAXEEPDO
  {
    t.index[n] == p.index && t.syncM[n] == p.syncM && t.bitSize[n] == Size(p)
  }

  /** The table lists the first `k` PDOs of a slave, with the bits that each sync manager carries. */
  ghost predicate ListsAll(t: Table, ps: seq<Pdo>, k: nat) {
    && Sized(t) && k < EC_MAXEEPDO && k <= |ps|
    && (forall i {:trigger ps[i]} :: 0 <= i < k ==> Lists(t, ps[i], i + 1))
    && forall sm {:trigger t.smBitsize[sm]} :: 0 <= sm < EC_MAXSM ==> t.smBitsize[sm] == CarriedBy(ps, k, sm)
  }

  lemma {:induction false} TableIsRead(t: Table, c: Cache, slave: nat, a: nat, ps: seq<Pdo>, k: nat)
    requires Holds(c, slave, a, AllPdos(ps)) && k <= |ps| && Describes(t, c, slave, PdoAddrs(ps, a), k)
    ensures ListsAll(t, ps, k)
  {
    hide Holds, AllPdos, Size, BitsOf, SyncM, WordAt, CarriedBy, SmBits;
    var addrs := PdoAddrs(ps, a);
    forall i {:trigger ps[i]} | 0 <= i < k ensures Lists(t, ps[i], i + 1) {
      NthPdoIsRead(c, slave, a, ps, i);
      assert IsPdo(t, c, slave, addrs[i], i + 1);
    }
    forall sm {:trigger t.smBitsize[sm]} | 0 <= sm < EC_MAXSM ensures t.smBitsize[sm] == CarriedBy(ps, k, sm) {
      SumsAreRead(c, slave, a, ps, k, sm);
    }
  }

  /** The EEPROM of a slave, and the PDOs in its first section of a category, if there is one. */
  ghost predicate HasPdosIn(c: Cache, slave: nat, ss: seq<Section>, category: word, ps: seq<Pdo>) {
    && Holds(c, slave, 0x80, Image(ss)) && ProperSections(ss) && 0x80 + |Image(ss)| + 2 <= 4090 && category != 0xffff
    && var k := FirstOf(ss, category);
       k < |ss| ==> ps != [] && ss[k].data == AllPdos(ps) && SizeSum(ps, |ps|) < 65536
  }

  /** What the search and the walk over PDOs need. */
  lemma {:induction false} PdosAreFound(c: Cache, slave: nat, ss: seq<Section>, category: word, ps: seq<Pdo>)
    requires HasPdosIn(c, slave, ss, category, ps)
    ensures var addrs, k := SectionAddrs(ss, 0x80), FirstOf(ss, category);
            && IsChain(c, slave, addrs, 0x80)
            && Find(c, slave, addrs, 0, category) == (if k < |ss| then addrs[k] + 2 else 0)
            && (k < |ss| ==>
                  && Holds(c, slave, addrs[k] + 4, AllPdos(ps))
                  && IsPdoSection(c, slave, PdoAddrs(ps, addrs[k] + 4), addrs[k] + 2)
                  && ActiveBits(c, slave, PdoAddrs(ps, addrs[k] + 4), |ps|) < 65536)
  {
    hide Holds, AllPdos, Image, SectionAddrs, PdoAddrs, IsChain, IsPdoSection, WordAt, SizeSum, ActiveBits, Find;
    var addrs, k := SectionAddrs(ss, 0x80), FirstOf(ss, category);
    ImageIsChain(c, slave, ss);
    SectionIsFound(c, slave, ss, 0, category);
    if k < |ss| {
      SectionIsRead(c, slave, 0x80, ss, k);
      AddrsGrow(ss, 0x80, k + 1);
      EndIsRead(c, slave, 0x80, ss);
      PdosAreSection(c, slave, addrs[k] + 2, ps);
      SumsAreRead(c, slave, addrs[k] + 4, ps, |ps|, 0);
    }
  }

  /** ecx_siiPDO on the EEPROM of a slave whose PDOs are `ps`: it returns the bits of all entries of the PDOs that
      a sync manager carries, and lists all PDOs, as far as the table goes. Without a section of the category there
      is nothing. */
  method ReadImage(info: PdoInfo, c: Cache, slave: nat, t: nat, ghost ss: seq<Section>, ghost ps: seq<Pdo>)
    returns (size: nat)
    requires c.Valid() && Sized(info.table) && HasPdosIn(c, slave, ss, if t == 0 then 50 else 51, ps)
    modifies info, c, c.esimap, c.esibuf
    ensures c.Valid()
    ensures var k := FirstOf(ss, if t == 0 then 50 else 51);
            if k == |ss| then size == 0 && info.nPdo == 0
            else info.nPdo == Min(|ps|, 511) && size == SizeSum(ps, info.nPdo) && ListsAll(info.table, ps, info.nPdo)
  {
    hide HasPdosIn, Cache.Valid, IsChain, IsPdoSection, ActiveBits, Find, Describes, ListsAll, SizeSum, Holds, FirstOf,
         SectionAddrs, PdoAddrs, AllPdos;
    ghost var category: word := if t == 0 then 50 else 51;
    ghost var k, addrs := FirstOf(ss, category), SectionAddrs(ss, 0x80);
    PdosAreFound(c, slave, ss, category, ps);
    ghost var pdos := if k < |ss| then PdoAddrs(ps, addrs[k] + 4) else [];
    ghost var end;
    size, end := info.SiiPdo(c, slave, t, addrs, pdos);
    if k < |ss| {
      TableIsRead(info.table, c, slave, addrs[k] + 4, ps, info.nPdo);
      SumsAreRead(c, slave, addrs[k] + 4, ps, info.nPdo, 0);
    }
  }
}
