/** Finding a category in the EEPROM of a slave and reading its PDO descriptions (ecx_siifind, ecx_siiPDO). */
module SiiWalk {
  import opened Memory
  import opened Numbers
  import opened SiiCache

  const ECT_SII_START := 0x0040
  const ECT_SII_PDO := 50
  const EC_MAXSM := 8
  const EC_MAXEEPDO := 0x200

  /** A word of the EEPROM as it is read byte by byte. */
  function WordAt(c: Cache, slave: nat, a: nat): (w: nat)
    ensures w < 65536
  {
    (c.Direct(slave, a) as int) + 256 * (c.Direct(slave, a + 1) as int)
  }

  /** Section headers from `first` on, each two words; the last one is only the end mark, and none
      before it is. Beyond the cache everything reads as an end mark, as far as 16-bit signed addresses
      go. */
  ghost predicate IsChain(c: Cache, slave: nat, sections: seq<nat>, first: nat) {
    && sections != [] && sections[0] == first
    && (forall i {:trigger sections[i]} :: 0 <= i < |sections| ==>
          && InReach(sections[i])
          && (WordAt(c, slave, sections[i]) == 0xffff <==> i == |sections| - 1))
    && (forall i {:trigger Leads(c, slave, sections, i)} :: 0 <= i < |sections| - 1 ==> Leads(c, slave, sections, i))
  }

  predicate Leads(c: Cache, slave: nat, sections: seq<nat>, i: nat)
    requires i + 1 < |sections|
  {
    sections[i + 1] == sections[i] + 4 + 2 * WordAt(c, slave, sections[i] + 2)
  }

  /** What is not in the cache reads as an end mark, everything else as it is in the EEPROM. */
  lemma {:induction false} BeyondCache(c: Cache, slave: nat, a: nat)
    ensures a >= 4096 ==> WordAt(c, slave, a) == 0xffff
    ensures a < 4095 ==> WordAt(c, slave, a) == c.rom(slave, a) as int + 256 * (c.rom(slave, a + 1) as int)
  {
  }

  predicate InReach(a: nat) { a + 4 <= 4090 || EC_MAXEEPBUF <= a < 32764 }

  /** The first of the sections from `i` on that has this category, with its length word's address. */
  ghost function Find(c: Cache, slave: nat, sections: seq<nat>, i: nat, cat: nat): nat
    decreases |sections| - i
  {
    if i >= |sections| then 0
    else if WordAt(c, slave, sections[i]) == cat then sections[i] + 2
    else Find(c, slave, sections, i + 1, cat)
  }

  method GetWord(c: Cache, slave: nat, a: nat) returns (w: nat)
    requires c.Valid() && c.Readable(slave, a) && c.Readable(slave, a + 1)
    modifies c, c.esimap, c.esibuf
    ensures c.Valid() && w == WordAt(c, slave, a)
  {
    var lo := c.GetByte(slave, a);
    var hi := c.GetByte(slave, a + 1);
    w := (lo as int) + 256 * (hi as int);
  }

  /** Addresses below the very end of the cache can always be read. */
  lemma {:induction false} Near(c: Cache, slave: nat, a: nat)
    requires a < 4090 || a >= EC_MAXEEPBUF
    ensures c.Readable(slave, a)
  {
  }

  /** On a well-formed chain the search ends at the first section of the category, with the address of
      its length word, or with 0. */
  method SiiFind(c: Cache, slave: nat, cat: nat, ghost sections: seq<nat>) returns (a: nat)
    requires c.Valid() && IsChain(c, slave, sections, 2 * ECT_SII_START)
    modifies c, c.esimap, c.esibuf
    ensures c.Valid()
    ensures a == Find(c, slave, sections, 0, cat)
  {
    hide WordAt, IsChain, InReach, Cache.Valid, Cache.Readable;
    ghost var i := 0;
    a := ECT_SII_START * 2;
    FirstSection(c, slave, sections);
    Section(c, slave, sections, i);
    var p := GetWord(c, slave, a);
    a := a + 2;
    while p != cat && p != 0xffff
      invariant c.Valid() && i < |sections| && a == sections[i] + 2
      invariant p == WordAt(c, slave, sections[i])
      invariant Find(c, slave, sections, i, cat) == Find(c, slave, sections, 0, cat)
      decreases |sections| - i
    {
      Section(c, slave, sections, i);
      p := GetWord(c, slave, a);
      a := a + 2 + 2 * p;
      i := i + 1;
      Section(c, slave, sections, i);
      p := GetWord(c, slave, a);
      a := a + 2;
    }
    Section(c, slave, sections, i);
    if p != cat {
      a := 0;
    }
  }

  lemma {:induction false} NthSection(c: Cache, slave: nat, sections: seq<nat>, i: nat)
    requires IsChain(c, slave, sections, 2 * ECT_SII_START) && i < |sections|
    ensures InReach(sections[i])
    ensures WordAt(c, slave, sections[i]) == 0xffff <==> i == |sections| - 1
    ensures i < |sections| - 1 ==> sections[i + 1] == sections[i] + 4 + 2 * WordAt(c, slave, sections[i] + 2)
  {
    hide WordAt, InReach;
    assert i < |sections| - 1 ==> Leads(c, slave, sections, i);
  }

  lemma {:induction false} FirstSection(c: Cache, slave: nat, sections: seq<nat>)
    requires IsChain(c, slave, sections, 2 * ECT_SII_START)
    ensures sections != [] && sections[0] == 2 * ECT_SII_START
  {
    hide WordAt, InReach;
  }

  lemma {:induction false} Section(c: Cache, slave: nat, sections: seq<nat>, i: nat)
    requires IsChain(c, slave, sections, 2 * ECT_SII_START) && i < |sections|
    ensures WordAt(c, slave, sections[i]) == 0xffff <==> i == |sections| - 1
    ensures i < |sections| - 1 ==> sections[i + 1] == sections[i] + 4 + 2 * WordAt(c, slave, sections[i] + 2)
    ensures c.Readable(slave, sections[i]) && c.Readable(slave, sections[i] + 1)
    ensures c.Readable(slave, sections[i] + 2) && c.Readable(slave, sections[i] + 3)
  {
    hide WordAt, IsChain, Cache.Readable;
    NthSection(c, slave, sections, i);
    Near(c, slave, sections[i]);
    Near(c, slave, sections[i] + 1);
    Near(c, slave, sections[i] + 2);
    Near(c, slave, sections[i] + 3);
  }

  /** What the search means: the first section with this category, or none. */
  lemma {:induction false} FindIsFirst(c: Cache, slave: nat, sections: seq<nat>, i: nat, cat: nat)
    requires i <= |sections|
    ensures var r := Find(c, slave, sections, i, cat);
            && (r == 0 ==> forall j {:trigger sections[j]} :: i <= j < |sections| ==>
                 WordAt(c, slave, sections[j]) != cat)
            && (r != 0 ==> exists j {:trigger sections[j]} :: i <= j < |sections| && r == sections[j] + 2
                             && WordAt(c, slave, sections[j]) == cat
                             && forall k {:trigger sections[k]} :: i <= k < j ==> WordAt(c, slave, sections[k]) != cat)
    decreases |sections| - i
  {
    hide WordAt;
    if i < |sections| {
      FindIsFirst(c, slave, sections, i + 1, cat);
    }
  }

  /** A PDO description at `p`: its header names the number of entries and the sync manager. */
  function Entries(c: Cache, slave: nat, p: nat): nat { c.Direct(slave, p + 2) as int }

  function SyncM(c: Cache, slave: nat, p: nat): nat { c.Direct(slave, p + 3) as int }

  predicate Active(c: Cache, slave: nat, p: nat) { SyncM(c, slave, p) < EC_MAXSM }

  /** The bit lengths of the first `k` entries. */
  function EntryBits(c: Cache, slave: nat, p: nat, k: nat): (bits: nat)
    ensures bits <= 255 * k
  {
    if k == 0 then 0 else EntryBits(c, slave, p, k - 1) + (c.Direct(slave, p + 8 + 8 * (k - 1) + 5) as int)
  }

  function BitsOf(c: Cache, slave: nat, p: nat): (bits: nat)
    ensures bits < 65536
  {
    if Active(c, slave, p) then EntryBits(c, slave, p, Entries(c, slave, p)) else 0
  }

  predicate Follows(c: Cache, slave: nat, pdos: seq<nat>, i: nat)
    requires i + 1 < |pdos|
  {
    pdos[i + 1] == pdos[i] + 8 + 8 * Entries(c, slave, pdos[i])
  }

  /** The PDO descriptions fill a section exactly: the first one follows the length word at `start`,
      each is followed by the next one, and the last entry of `pdos` is the end of the section. */
  ghost predicate IsPdoSection(c: Cache, slave: nat, pdos: seq<nat>, start: nat) {
    && |pdos| > 1 && pdos[0] == start + 2
    && (forall i {:trigger Follows(c, slave, pdos, i)} :: 0 <= i < |pdos| - 1 ==> Follows(c, slave, pdos, i))
    && pdos[|pdos| - 1] == start + 2 + 2 * WordAt(c, slave, start)
    && pdos[|pdos| - 1] <= 4090
  }

  /** The bits that the first `k` PDOs give to one sync manager, and to all of them. */
  function SmBits(c: Cache, slave: nat, pdos: seq<nat>, k: nat, sm: nat): nat
    requires k <= |pdos|
  {
    if k == 0 then 0
    else SmBits(c, slave, pdos, k - 1, sm)
         + (if SyncM(c, slave, pdos[k - 1]) == sm then BitsOf(c, slave, pdos[k - 1]) else 0)
  }

  function ActiveBits(c: Cache, slave: nat, pdos: seq<nat>, k: nat): nat
    requires k <= |pdos|
  {
    if k == 0 then 0 else ActiveBits(c, slave, pdos, k - 1) + BitsOf(c, slave, pdos[k - 1])
  }

  function SumSm(c: Cache, slave: nat, pdos: seq<nat>, k: nat, n: nat): nat
    requires k <= |pdos|
  {
    if n == 0 then 0 else SumSm(c, slave, pdos, k, n - 1) + SmBits(c, slave, pdos, k, n - 1)
  }

  /** The sizes of all sync managers add up to the size of all active PDOs. */
  lemma {:induction false} SizesAgree(c: Cache, slave: nat, pdos: seq<nat>, k: nat)
    requires k <= |pdos|
    ensures SumSm(c, slave, pdos, k, EC_MAXSM) == ActiveBits(c, slave, pdos, k)
  {
    hide SyncM, EntryBits, SumSm;
    if k == 0 {
      NoPdos(c, slave, pdos, EC_MAXSM);
    } else {
      SizesAgree(c, slave, pdos, k - 1);
      OnePdo(c, slave, pdos, k, EC_MAXSM);
    }
  }

  lemma {:induction false} NoPdos(c: Cache, slave: nat, pdos: seq<nat>, n: nat)
    ensures SumSm(c, slave, pdos, 0, n) == 0
  {
    if n > 0 {
      NoPdos(c, slave, pdos, n - 1);
    }
  }

  lemma {:induction false} OnePdo(c: Cache, slave: nat, pdos: seq<nat>, k: nat, n: nat)
    requires 0 < k <= |pdos|
    ensures SumSm(c, slave, pdos, k, n)
            == SumSm(c, slave, pdos, k - 1, n) + if SyncM(c, slave, pdos[k - 1]) < n then BitsOf(c, slave, pdos[k - 1])
               else 0
  {
    hide SyncM, BitsOf;
    if n > 0 {
      OnePdo(c, slave, pdos, k, n - 1);
    }
  }

  lemma {:induction false} SmWithinActive(c: Cache, slave: nat, pdos: seq<nat>, k: nat, sm: nat)
    requires k <= |pdos|
    ensures SmBits(c, slave, pdos, k, sm) <= ActiveBits(c, slave, pdos, k)
  {
    hide SyncM, BitsOf;
    if k > 0 {
      SmWithinActive(c, slave, pdos, k - 1, sm);
    }
  }

  lemma {:induction false} ActiveGrows(c: Cache, slave: nat, pdos: seq<nat>, j: nat, k: nat)
    requires j <= k <= |pdos|
    ensures ActiveBits(c, slave, pdos, j) <= ActiveBits(c, slave, pdos, k)
    decreases k
  {
    hide BitsOf;
    if j < k {
      ActiveGrows(c, slave, pdos, j, k - 1);
    }
  }

  /** Index, sync manager and size of each PDO, the first one at position 1, and the size of what each
      sync manager carries. */
  datatype Table = Table(index: seq<nat>, syncM: seq<nat>, bitSize: seq<nat>, smBitsize: seq<nat>)

  predicate Sized(t: Table) {
    |t.index| == |t.syncM| == |t.bitSize| == EC_MAXEEPDO && |t.smBitsize| == EC_MAXSM
  }

  /** PDO `n` of the table describes the one at address `p`. */
  ghost predicate IsPdo(t: Table, c: Cache, slave: nat, p: nat, n: nat)
    requires Sized(t) && n < EC_MAXEEPDO
  {
    t.index[n] == WordAt(c, slave, p) && t.syncM[n] == SyncM(c, slave, p) && t.bitSize[n] == BitsOf(c, slave, p)
  }

  /** The table describes the first `k` PDOs of a section. */
  ghost predicate Describes(t: Table, c: Cache, slave: nat, pdos: seq<nat>, k: nat) {
    && Sized(t) && k < EC_MAXEEPDO && k <= |pdos|
    && (forall i {:trigger pdos[i]} :: 0 <= i < k ==> IsPdo(t, c, slave, pdos[i], i + 1))
    && forall sm {:trigger t.smBitsize[sm]} :: 0 <= sm < EC_MAXSM ==> t.smBitsize[sm] == SmBits(c, slave, pdos, k, sm)
  }

  function Cleared(t: Table): Table
    requires Sized(t)
  {
    t.(index := t.index[1 := 0], smBitsize := seq(EC_MAXSM, i => 0))
  }

  lemma {:induction false} NothingDescribed(t: Table, c: Cache, slave: nat, pdos: seq<nat>)
    requires Sized(t)
    ensures Describes(Cleared(t), c, slave, pdos, 0)
  {
  }

  /** The table with PDO `n`. */
  function With(t: Table, n: nat, index: nat, sm: nat, bits: nat): Table
    requires Sized(t) && n < EC_MAXEEPDO
  {
    Table(t.index[n := index], t.syncM[n := sm], t.bitSize[n := bits],
          if sm < EC_MAXSM then t.smBitsize[sm := (t.smBitsize[sm] + bits) % 65536] else t.smBitsize)
  }

  lemma {:induction false} DescribesOneMore(t: Table, c: Cache, slave: nat, pdos: seq<nat>, k: nat)
    requires Describes(t, c, slave, pdos, k) && k + 1 < EC_MAXEEPDO && k < |pdos|
    requires ActiveBits(c, slave, pdos, k + 1) < 65536
    ensures Describes(With(t, k + 1, WordAt(c, slave, pdos[k]), SyncM(c, slave, pdos[k]), BitsOf(c, slave, pdos[k])),
                      c, slave, pdos, k + 1)
  {
    hide WordAt, SyncM, BitsOf, ActiveBits;
    var sm := SyncM(c, slave, pdos[k]);
    SmWithinActive(c, slave, pdos, k + 1, sm);
    var u := With(t, k + 1, WordAt(c, slave, pdos[k]), sm, BitsOf(c, slave, pdos[k]));
    forall i | 0 <= i <= k ensures IsPdo(u, c, slave, pdos[i], i + 1) {
      assert i < k ==> IsPdo(t, c, slave, pdos[i], i + 1);
    }
    forall m | 0 <= m < EC_MAXSM ensures u.smBitsize[m] == SmBits(c, slave, pdos, k + 1, m) {
      assert t.smBitsize[m] == SmBits(c, slave, pdos, k, m);
    }
  }

  lemma {:induction false} NearPdo(c: Cache, slave: nat, p: nat)
    requires p + 8 <= 4090
    ensures c.Readable(slave, p) && c.Readable(slave, p + 1) && c.Readable(slave, p + 2) && c.Readable(slave, p + 3)
  {
    hide Cache.Readable;
    Near(c, slave, p);
    Near(c, slave, p + 1);
    Near(c, slave, p + 2);
    Near(c, slave, p + 3);
  }

  /** The bit lengths of all entries of an active PDO. */
  method ReadEntries(c: Cache, slave: nat, a0: nat, c0: nat, e: nat, ghost p: nat)
    returns (bits: nat, a: nat, count: nat)
    requires c.Valid() && a0 == p + 8 && e < 256 && a0 + 8 * e <= 4090
    modifies c, c.esimap, c.esibuf
    ensures c.Valid() && bits == EntryBits(c, slave, p, e) && a == a0 + 8 * e && count == c0 + 4 * e
  {
    hide Cache.Valid, Cache.Readable, Cache.Direct;
    bits, a, count := 0, a0, c0;
    var er := 0;
    while er < e
      invariant 0 <= er <= e && c.Valid()
      invariant bits == EntryBits(c, slave, p, er) && a == a0 + 8 * er && count == c0 + 4 * er
    {
      count := count + 4;
      Near(c, slave, a + 5);
      var b: nat := c.GetByte(slave, a + 5);
      bits := (bits + b) % 65536;
      a := a + 8;
      er := er + 1;
    }
  }

  /** What one more PDO adds, read byte by byte. */
  lemma {:induction false} OneMoreActive(c: Cache, slave: nat, pdos: seq<nat>, k: nat)
    requires k < |pdos| && ActiveBits(c, slave, pdos, k + 1) < 65536
    ensures var p := pdos[k];
            && (if SyncM(c, slave, p) < EC_MAXSM
               then BitsOf(c, slave, p) == EntryBits(c, slave, p, Entries(c, slave, p))
                else BitsOf(c, slave, p) == 0)
            && (ActiveBits(c, slave, pdos, k) + BitsOf(c, slave, p)) % 65536 == ActiveBits(c, slave, pdos, k + 1)
            && ActiveBits(c, slave, pdos, k) <= ActiveBits(c, slave, pdos, k + 1)
  {
    hide EntryBits;
  }

  /** What is known of the PDOs of one direction. */
  class PdoInfo {
    var startpos: nat
    var length: nat
    var nPdo: nat
    var table: Table

    constructor ()
      ensures Sized(table) && nPdo == 0
    {
      startpos, length, nPdo := 0, 0, 0;
      table := Table(seq(EC_MAXEEPDO, i => 0), seq(EC_MAXEEPDO, i => 0), seq(EC_MAXEEPDO, i => 0),
                     seq(EC_MAXSM, i => 0));
    }

    /** Reads one PDO description; the word counter moves in step with the byte address. */
    method ReadPdo(c: Cache, slave: nat, a0: nat, c0: nat, size0: nat, ghost pdos: seq<nat>)
        returns (a: nat, count: nat, size: nat)
      requires c.Valid() && Describes(table, c, slave, pdos, nPdo) && nPdo + 1 < |pdos| && nPdo + 1 < EC_MAXEEPDO
      requires a0 == pdos[nPdo] && pdos[nPdo + 1] == a0 + 8 + 8 * Entries(c, slave, a0) <= 4090
      requires size0 == ActiveBits(c, slave, pdos, nPdo) && ActiveBits(c, slave, pdos, nPdo + 1) < 65536
      modifies this`nPdo, this`table, c, c.esimap, c.esibuf
      ensures c.Valid() && nPdo == old(nPdo) + 1
      ensures Describes(table, c, slave, pdos, nPdo)
      ensures a == pdos[nPdo] && 2 * (count - c0) == a - a0
      ensures size == ActiveBits(c, slave, pdos, nPdo)
    {
      hide WordAt, EntryBits, Cache.Valid, Cache.Readable, Describes, BitsOf, ActiveBits, With;
      NearPdo(c, slave, a0);
      OneMoreActive(c, slave, pdos, nPdo);
      DescribesOneMore(table, c, slave, pdos, nPdo);
      DescribesSized(table, c, slave, pdos, nPdo);
      a, count, size := a0, c0, size0;
      nPdo := nPdo + 1;
      var index := GetWord(c, slave, a);
      var e: nat := c.GetByte(slave, a + 2);
      var sm: nat := c.GetByte(slave, a + 3);
      a, count := a + 8, count + 3;
      var bits := 0;
      if sm < EC_MAXSM {
        bits, a, count := ReadEntries(c, slave, a, count, e, a0);
        size := (size + bits) % 65536;
      } else {
        a, count := a + 8 * e, count + 4 * e;
      }
      count := count + 1;
      table := With(table, nPdo, index, sm, bits);
    }

    /** Reads all PDOs of one direction, up to the size of the table; `end` is where the last one ends. */
    method SiiPdo(c: Cache, slave: nat, t: nat, ghost sections: seq<nat>, ghost pdos: seq<nat>)
        returns (size: nat, ghost end: nat)
      requires c.Valid() && Sized(table) && IsChain(c, slave, sections, 2 * ECT_SII_START)
      requires HasPdos(c, slave, t, sections, pdos)
      modifies this, c, c.esimap, c.esibuf
      ensures c.Valid() && startpos == Find(c, slave, sections, 0, Category(t))
      ensures startpos == 0 ==> size == 0 && nPdo == 0 && table == Cleared(old(table))
      ensures startpos != 0 ==>
                && length == WordAt(c, slave, startpos)
                && nPdo == Min(|pdos| - 1, EC_MAXEEPDO - 1)
                && Describes(table, c, slave, pdos, nPdo)
                && size == ActiveBits(c, slave, pdos, nPdo) && end == pdos[nPdo]
    {
      hide WordAt, IsChain, Cache.Valid, Cache.Readable, Describes, IsPdoSection, Find, ActiveBits;
      size, end := 0, 0;
      nPdo, length := 0, 0;
      NothingDescribed(table, c, slave, pdos);
      table := Cleared(table);
      startpos := SiiFind(c, slave, Category(t), sections);
      if startpos > 0 {
        PdoSection(c, slave, pdos, startpos, 0);
        size := ReadPdos(c, slave, pdos);
        end := pdos[nPdo];
      }
    }

    method ReadPdos(c: Cache, slave: nat, ghost pdos: seq<nat>) returns (size: nat)
      requires c.Valid() && IsPdoSection(c, slave, pdos, startpos) && Describes(table, c, slave, pdos, 0) && nPdo == 0
      requires ActiveBits(c, slave, pdos, |pdos| - 1) < 65536
      modifies this`length, this`nPdo, this`table, c, c.esimap, c.esibuf
      ensures c.Valid() && length == WordAt(c, slave, startpos)
      ensures |pdos| > 1 && nPdo == Min(|pdos| - 1, EC_MAXEEPDO - 1)
      ensures Describes(table, c, slave, pdos, nPdo) && size == ActiveBits(c, slave, pdos, nPdo)
    {
      hide WordAt, Cache.Valid, Cache.Readable, Describes, IsPdoSection;
      PdoSection(c, slave, pdos, startpos, 0);
      NearPdo(c, slave, startpos);
      length := GetWord(c, slave, startpos);
      var a: nat := startpos + 2;
      var count: nat := 1;
      size := 0;
      var more := true;
      while more
        modifies this`nPdo, this`table, c, c.esimap, c.esibuf
        invariant c.Valid() && nPdo < |pdos| && nPdo < EC_MAXEEPDO
        invariant more ==> nPdo + 1 < |pdos| && nPdo + 1 < EC_MAXEEPDO
        invariant !more ==> nPdo == Min(|pdos| - 1, EC_MAXEEPDO - 1)
        invariant a == pdos[nPdo] && (more ==> a - (startpos + 2) == 2 * (count - 1))
        invariant Describes(table, c, slave, pdos, nPdo) && size == ActiveBits(c, slave, pdos, nPdo)
        decreases |pdos| - nPdo
      {
        PdoSection(c, slave, pdos, startpos, nPdo);
        ActiveGrows(c, slave, pdos, nPdo + 1, |pdos| - 1);
        a, count, size := ReadPdo(c, slave, a, count, size, pdos);
        PdoEnds(c, slave, pdos, startpos, nPdo);
        if nPdo >= EC_MAXEEPDO - 1 {
          count := length;
        }
        more := count < length;
      }
    }
  }

  function Category(t: nat): nat { ECT_SII_PDO + if t > 1 then 1 else t }

  /** If there is a section for this direction, it is filled with PDOs, with less than 65536 bits. */
  ghost predicate HasPdos(c: Cache, slave: nat, t: nat, sections: seq<nat>, pdos: seq<nat>) {
    var start := Find(c, slave, sections, 0, Category(t));
    start != 0 ==> IsPdoSection(c, slave, pdos, start) && ActiveBits(c, slave, pdos, |pdos| - 1) < 65536
  }

  lemma {:induction false} PdosGrow(c: Cache, slave: nat, pdos: seq<nat>, start: nat, j: nat, k: nat)
    requires IsPdoSection(c, slave, pdos, start) && j <= k < |pdos|
    ensures pdos[j] + 8 * (k - j) <= pdos[k]
    decreases k
  {
    hide WordAt;
    if j < k {
      PdosGrow(c, slave, pdos, start, j, k - 1);
      assert Follows(c, slave, pdos, k - 1);
    }
  }

  lemma {:induction false} PdoSection(c: Cache, slave: nat, pdos: seq<nat>, start: nat, k: nat)
    requires IsPdoSection(c, slave, pdos, start) && (k == 0 || k + 1 < |pdos|)
    ensures |pdos| > 1 && pdos[0] == start + 2 && start + 10 <= 4090
    ensures pdos[k + 1] == pdos[k] + 8 + 8 * Entries(c, slave, pdos[k]) <= 4090
  {
    hide WordAt, Entries;
    assert Follows(c, slave, pdos, 0) && Follows(c, slave, pdos, k);
    PdosGrow(c, slave, pdos, start, k + 1, |pdos| - 1);
    PdosGrow(c, slave, pdos, start, 1, |pdos| - 1);
  }

  /** The word counter passes the length of the section exactly after the last PDO. */
  lemma {:induction false} PdoEnds(c: Cache, slave: nat, pdos: seq<nat>, start: nat, k: nat)
    requires IsPdoSection(c, slave, pdos, start) && 0 < k < |pdos|
    ensures pdos[k] - start - 2 < 2 * WordAt(c, slave, start) - 2 <==> k < |pdos| - 1
  {
    hide WordAt, Entries;
    PdosGrow(c, slave, pdos, start, k, |pdos| - 1);
  }

  lemma {:induction false} DescribesSized(t: Table, c: Cache, slave: nat, pdos: seq<nat>, k: nat)
    requires Describes(t, c, slave, pdos, k)
    ensures Sized(t)
  {
  }
}
