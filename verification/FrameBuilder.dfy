/** Laying a chain of datagrams into a frame buffer, and walking it (ethercatbase.c). */
module FrameBuilder {
  import opened Memory

  const ETH_HEADERSIZE := 14
  const EC_HEADERSIZE := 12
  const EC_ELENGTHSIZE := 2
  const EC_WKCSIZE := 2
  const EC_ECATTYPE := 0x1000
  const EC_DATAGRAMFOLLOWS := 0x8000
  const EC_BUFSIZE := 1518
  /** The first datagram begins behind the Ethernet header and the length of all datagrams. */
  const FIRST := ETH_HEADERSIZE + EC_ELENGTHSIZE
  /** What a datagram takes besides its data: ten bytes of header and the working counter. */
  const OVERHEAD := EC_HEADERSIZE - EC_ELENGTHSIZE + EC_WKCSIZE

  const EC_CMD_NOP := 0
  const EC_CMD_APRD := 1
  const EC_CMD_FPRD := 4
  const EC_CMD_BRD := 7
  const EC_CMD_LRD := 10
  const EC_CMD_LRW := 12
  const EC_CMD_FRMW := 14

  datatype Datagram = Datagram(command: byte, index: byte, adp: word, ado: word, data: seq<byte>)

  predicate OnlyReads(command: nat) {
    command == EC_CMD_NOP || command == EC_CMD_APRD || command == EC_CMD_FPRD || command == EC_CMD_BRD
      || command == EC_CMD_LRD
  }

  /** The data as they are sent: zeros for a command that only reads. */
  function Payload(command: nat, data: seq<byte>): (p: seq<byte>)
    ensures |p| == |data|
  {
    if OnlyReads(command) then seq<byte>(|data|, i => 0) else data
  }

  /** By command code: NOP, APRD, FPRD, BRD and LRD are sent with zeros; APWR, APRW, FPWR, FPRW, BWR, BRW, LWR,
      LRW, ARMW and FRMW carry their data to the slaves. */
  lemma {:induction false} PayloadByCode(command: nat, data: seq<byte>)
    ensures command == 0 || command == 1 || command == 4 || command == 7 || command == 10 ==>
              forall i :: 0 <= i < |data| ==> Payload(command, data)[i] == 0
    ensures command == 2 || command == 3 || command == 5 || command == 6 || command == 8 || command == 9 ==>
              Payload(command, data) == data
    ensures 11 <= command <= 14 ==> Payload(command, data) == data
  {
  }

  function WordAt(b: seq<byte>, pos: nat): (w: nat)
    requires pos + 2 <= |b|
    ensures w < 65536
  {
    (b[pos] as int) + 256 * (b[pos + 1] as int)
  }

  /** The bytes of a datagram from `pos` on: header with or without the mark that another one follows,
      data, and a working counter of zero. */
  ghost predicate DatagramAt(b: seq<byte>, pos: nat, d: Datagram, follows: bool) {
    && |d.data| < 2048 && pos + OVERHEAD + |d.data| <= |b|
    && b[pos] == d.command && b[pos + 1] == d.index
    && WordAt(b, pos + 2) == d.adp && WordAt(b, pos + 4) == d.ado
    && WordAt(b, pos + 6) == |d.data| + (if follows then EC_DATAGRAMFOLLOWS else 0)
    && b[pos + 10..pos + 10 + |d.data|] == d.data
    && WordAt(b, pos + 10 + |d.data|) == 0
  }

  /** The receiver's way through a frame: from each datagram to the next one, as long as one follows. */
  function Walk(b: seq<byte>, pos: nat): seq<Datagram>
    decreases |b| - pos
  {
    if pos + OVERHEAD > |b| then []
    else
      var n := WordAt(b, pos + 6) % 2048;
      if pos + OVERHEAD + n > |b| then []
      else
        [Datagram(b[pos], b[pos + 1], WordAt(b, pos + 2), WordAt(b, pos + 4), b[pos + 10..pos + 10 + n])]
        + (if WordAt(b, pos + 6) >= EC_DATAGRAMFOLLOWS then Walk(b, pos + OVERHEAD + n) else [])
  }

  /** A datagram of the chain, and whether it is marked to be followed by another one. */
  datatype Entry = Entry(d: Datagram, follows: bool)

  function PosOf(chain: seq<Entry>, k: nat): (p: nat)
    requires k <= |chain|
    ensures p >= FIRST
  {
    if k == 0 then FIRST else PosOf(chain, k - 1) + OVERHEAD + |chain[k - 1].d.data|
  }

  ghost predicate EntryAt(b: seq<byte>, chain: seq<Entry>, k: nat)
    requires k < |chain|
  {
    DatagramAt(b, PosOf(chain, k), chain[k].d, chain[k].follows)
  }

  /** The datagrams of a chain lie one behind the other. */
  ghost predicate ChainAt(b: seq<byte>, chain: seq<Entry>) {
    forall k {:trigger EntryAt(b, chain, k)} :: 0 <= k < |chain| ==> EntryAt(b, chain, k)
  }

  /** A frame buffer and the size of the frame in it. */
  class Port {
    const txbuf: array<byte>
    var txbuflength: nat

    constructor ()
      ensures fresh(txbuf) && txbuf.Length == EC_BUFSIZE
    {
      txbuf := new byte[EC_BUFSIZE](_ => 0);
      txbuflength := 0;
    }

    /** The frame holds exactly the datagrams of a chain, and the length field counts them all. */
    ghost predicate Holds(chain: seq<Entry>)
      reads this, txbuf
    {
      && chain != [] && txbuf.Length == EC_BUFSIZE
      && ChainAt(txbuf[..], chain)
      && txbuflength == PosOf(chain, |chain|) <= EC_BUFSIZE
      && WordAt(txbuf[..], ETH_HEADERSIZE) == EC_ECATTYPE + txbuflength - FIRST
    }

    method PutWord(pos: nat, w: word)
      requires pos + 2 <= txbuf.Length
      modifies txbuf
      ensures WordAt(txbuf[..], pos) == w && SameOutside(old(txbuf[..]), txbuf[..], pos, pos + 2)
    {
      ghost var was := txbuf[..];
      CopyIn(txbuf, pos, [w % 256, w / 256]);
      Patched(was, pos, [w % 256, w / 256]);
      hide Patch;
    }

    /** The header of a datagram; its last word is left alone. */
    method PutHeader(pos: nat, command: byte, index: byte, adp: word, ado: word, dlength: word)
      requires pos + OVERHEAD <= txbuf.Length
      modifies txbuf
      ensures HeaderAt(txbuf[..], pos, command, index, adp, ado, dlength)
      ensures SameOutside(old(txbuf[..]), txbuf[..], pos, pos + 8)
    {
      hide WordAt, Patch;
      ghost var was := txbuf[..];
      CopyIn(txbuf, pos, [command, index]);
      Patched(was, pos, [command, index]);
      ghost var b0 := txbuf[..];
      PutWord(pos + 2, adp);
      ghost var b1 := txbuf[..];
      PutWord(pos + 4, ado);
      SameWord(b1, txbuf[..], pos + 4, pos + 6, pos + 2);
      ghost var b2 := txbuf[..];
      PutWord(pos + 6, dlength);
      SameWord(b2, txbuf[..], pos + 6, pos + 8, pos + 2);
      SameWord(b2, txbuf[..], pos + 6, pos + 8, pos + 4);
    }

    /** Data, with zeros for a command that only reads (ecx_writedatagramdata). */
    method PutData(pos: nat, command: byte, data: seq<byte>)
      requires pos + |data| <= txbuf.Length
      modifies txbuf
      ensures txbuf[pos..pos + |data|] == Payload(command, data)
      ensures SameOutside(old(txbuf[..]), txbuf[..], pos, pos + |data|)
    {
      ghost var was := txbuf[..];
      if |data| > 0 {
        CopyIn(txbuf, pos, Payload(command, data));
        Patched(was, pos, Payload(command, data));
      }
    }

    /** Header, data and working counter of one datagram. */
    method PutDatagram(pos: nat, d: Datagram, dlength: word, ghost follows: bool)
      requires |d.data| < 2048 && pos + OVERHEAD + |d.data| <= txbuf.Length
      requires dlength == |d.data| + (if follows then EC_DATAGRAMFOLLOWS else 0)
      modifies txbuf
      ensures DatagramAt(txbuf[..], pos, d.(data := Payload(d.command, d.data)), follows)
      ensures SameOutside(old(txbuf[..]), txbuf[..], pos, pos + OVERHEAD + |d.data|)
    {
      hide WordAt, Payload;
      PutHeader(pos, d.command, d.index, d.adp, d.ado, dlength);
      ghost var b0 := txbuf[..];
      PutData(pos + 10, d.command, d.data);
      ghost var b1 := txbuf[..];
      SameHeader(b0, b1, pos + 10, pos + 10 + |d.data|, pos, d.command, d.index, d.adp, d.ado, dlength);
      PutWord(pos + 10 + |d.data|, 0);
      ghost var end := pos + 10 + |d.data|;
      SameHeader(b1, txbuf[..], end, end + 2, pos, d.command, d.index, d.adp, d.ado, dlength);
      SameSlice(b1, txbuf[..], end, end + 2, pos + 10, end);
    }

    /** The first datagram of a frame. */
    method SetupDatagram(d: Datagram)
      requires txbuf.Length == EC_BUFSIZE && FIRST + OVERHEAD + |d.data| <= EC_BUFSIZE
      modifies this`txbuflength, txbuf
      ensures Holds([Entry(Sent(d), false)]) && SameOutside(old(txbuf[..]), txbuf[..], ETH_HEADERSIZE, txbuflength)
    {
      hide DatagramAt, WordAt;
      PutWord(ETH_HEADERSIZE, EC_ECATTYPE + EC_HEADERSIZE + |d.data|);
      ghost var b := txbuf[..];
      PutDatagram(FIRST, d, |d.data|, false);
      SameWord(b, txbuf[..], FIRST, FIRST + OVERHEAD + |d.data|, ETH_HEADERSIZE);
      txbuflength := ETH_HEADERSIZE + EC_HEADERSIZE + EC_WKCSIZE + |d.data|;
      OneEntry(txbuf[..], Entry(Sent(d), false));
    }

    /** Another datagram behind those of the frame; the result is where its data will be in the frame
        that comes back, which has no Ethernet header. */
    method AddDatagram(d: Datagram, more: bool, ghost chain: seq<Entry>) returns (offset: nat)
      requires Holds(chain) && txbuflength + OVERHEAD + |d.data| <= EC_BUFSIZE
      modifies this`txbuflength, txbuf
      ensures Holds(Added(chain, d, more))
      ensures offset == PosOf(Added(chain, d, more), |chain|) + 10 - ETH_HEADERSIZE
      ensures SameOutside(old(txbuf[..]), txbuf[..], ETH_HEADERSIZE, txbuflength)
    {
      hide DatagramAt, WordAt, ChainAt;
      var prevlength := txbuflength;
      ghost var b0 := txbuf[..];
      var elength := WordAt(txbuf[..], ETH_HEADERSIZE) + OVERHEAD + |d.data|;
      PutWord(ETH_HEADERSIZE, elength);
      ghost var b1 := txbuf[..];
      ChainKept(b0, b1, ETH_HEADERSIZE, FIRST, chain);
      MarkFollows(chain);
      ghost var b2 := txbuf[..];
      SameWord(b1, b2, FIRST + 6, FIRST + 8, ETH_HEADERSIZE);
      PutDatagram(prevlength, d, |d.data| + (if more then EC_DATAGRAMFOLLOWS else 0), more);
      MarkedPos(chain, |chain|);
      ChainKept(b2, txbuf[..], prevlength, prevlength + OVERHEAD + |d.data|, Marked(chain));
      SameWord(b2, txbuf[..], prevlength, prevlength + OVERHEAD + |d.data|, ETH_HEADERSIZE);
      AddEntry(txbuf[..], Marked(chain), Entry(Sent(d), more));
      txbuflength := prevlength + OVERHEAD + |d.data|;
      offset := prevlength + EC_HEADERSIZE - EC_ELENGTHSIZE - ETH_HEADERSIZE;
    }

    /** The mark that another datagram follows always goes to the first one of the frame. */
    method MarkFollows(ghost chain: seq<Entry>)
      requires txbuf.Length == EC_BUFSIZE && chain != [] && ChainAt(txbuf[..], chain)
      modifies txbuf
      ensures ChainAt(txbuf[..], Marked(chain))
      ensures SameOutside(old(txbuf[..]), txbuf[..], FIRST + 6, FIRST + 8)
    {
      hide WordAt, ChainAt;
      ghost var b := txbuf[..];
      var dlength := WordAt(txbuf[..], FIRST + 6);
      FirstEntry(b, chain);
      PutWord(FIRST + 6, dlength % EC_DATAGRAMFOLLOWS + EC_DATAGRAMFOLLOWS);
      MarkChain(b, txbuf[..], chain);
    }
  }

  /** A datagram as it is sent. */
  function Sent(d: Datagram): Datagram { d.(data := Payload(d.command, d.data)) }

  /** The first datagram is marked to be followed. */
  function Marked(chain: seq<Entry>): seq<Entry>
    requires chain != []
  {
    chain[0 := chain[0].(follows := true)]
  }

  function Added(chain: seq<Entry>, d: Datagram, more: bool): seq<Entry>
    requires chain != []
  {
    Marked(chain) + [Entry(Sent(d), more)]
  }

  ghost predicate SameOutside(b: seq<byte>, c: seq<byte>, from: nat, to: nat) {
    |b| == |c| && forall i {:trigger b[i]} {:trigger c[i]} :: 0 <= i < |b| && !(from <= i < to) ==> b[i] == c[i]
  }

  ghost predicate HeaderAt(b: seq<byte>, pos: nat, command: byte, index: byte, adp: word, ado: word, dlength: word) {
    && pos + 8 <= |b|
    && b[pos] == command && b[pos + 1] == index
    && WordAt(b, pos + 2) == adp && WordAt(b, pos + 4) == ado && WordAt(b, pos + 6) == dlength
  }

  lemma {:induction false} Patched(b: seq<byte>, at: nat, data: seq<byte>)
    requires at + |data| <= |b|
    ensures SameOutside(b, Patch(b, at, data), at, at + |data|)
    ensures Patch(b, at, data)[at..at + |data|] == data
    ensures forall i {:trigger Patch(b, at, data)[i]} :: at <= i < at + |data| ==> Patch(b, at, data)[i] == data[i - at]
  {
  }

  lemma {:induction false} SameWord(b: seq<byte>, c: seq<byte>, from: nat, to: nat, pos: nat)
    requires SameOutside(b, c, from, to) && (pos + 2 <= from || to <= pos) && pos + 2 <= |b|
    ensures WordAt(b, pos) == WordAt(c, pos)
  {
  }

  lemma {:induction false} SameHeader(b: seq<byte>, c: seq<byte>, from: nat, to: nat, pos: nat, command: byte,
                                      index: byte, adp: word, ado: word, dlength: word)
    requires SameOutside(b, c, from, to) && (pos + 8 <= from || to <= pos)
    requires HeaderAt(b, pos, command, index, adp, ado, dlength)
    ensures HeaderAt(c, pos, command, index, adp, ado, dlength)
  {
    hide WordAt;
    SameWord(b, c, from, to, pos + 2);
    SameWord(b, c, from, to, pos + 4);
    SameWord(b, c, from, to, pos + 6);
  }

  lemma {:induction false} SameSlice(b: seq<byte>, c: seq<byte>, from: nat, to: nat, lo: nat, hi: nat)
    requires SameOutside(b, c, from, to) && lo <= hi <= |b| && (hi <= from || to <= lo)
    ensures b[lo..hi] == c[lo..hi]
  {
  }

  lemma {:induction false} SameDatagram(b: seq<byte>, c: seq<byte>, from: nat, to: nat, pos: nat, d: Datagram,
                                        follows: bool)
    requires SameOutside(b, c, from, to) && DatagramAt(b, pos, d, follows)
    requires pos + OVERHEAD + |d.data| <= from || to <= pos
    ensures DatagramAt(c, pos, d, follows)
  {
    hide WordAt;
    SameWord(b, c, from, to, pos + 2);
    SameWord(b, c, from, to, pos + 4);
    SameWord(b, c, from, to, pos + 6);
    SameWord(b, c, from, to, pos + 10 + |d.data|);
    SameSlice(b, c, from, to, pos + 10, pos + 10 + |d.data|);
  }

  lemma {:induction false} PosGrows(chain: seq<Entry>, j: nat, k: nat)
    requires j < k <= |chain|
    ensures PosOf(chain, j) + OVERHEAD + |chain[j].d.data| <= PosOf(chain, k)
    decreases k
  {
    if j < k - 1 {
      PosGrows(chain, j, k - 1);
    }
  }

  /** A change outside the chain keeps it. */
  lemma {:induction false} ChainKept(b: seq<byte>, c: seq<byte>, from: nat, to: nat, chain: seq<Entry>)
    requires SameOutside(b, c, from, to) && ChainAt(b, chain)
    requires to <= FIRST || PosOf(chain, |chain|) <= from
    ensures ChainAt(c, chain)
  {
    hide DatagramAt, SameOutside, PosOf;
    forall k | 0 <= k < |chain| ensures EntryAt(c, chain, k) {
      PosGrows(chain, k, |chain|);
      assert EntryAt(b, chain, k);
      SameDatagram(b, c, from, to, PosOf(chain, k), chain[k].d, chain[k].follows);
    }
  }

  lemma {:induction false} SamePos(chain: seq<Entry>, other: seq<Entry>, k: nat)
    requires k <= |chain| && k <= |other| && forall i {:trigger chain[i]} :: 0 <= i < k ==> chain[i].d == other[i].d
    ensures PosOf(chain, k) == PosOf(other, k)
  {
    if k > 0 {
      SamePos(chain, other, k - 1);
    }
  }

  lemma {:induction false} MarkedPos(chain: seq<Entry>, k: nat)
    requires chain != [] && k <= |chain|
    ensures PosOf(Marked(chain), k) == PosOf(chain, k)
  {
    SamePos(chain, Marked(chain), k);
  }

  lemma {:induction false} FirstEntry(b: seq<byte>, chain: seq<Entry>)
    requires chain != [] && ChainAt(b, chain)
    ensures DatagramAt(b, FIRST, chain[0].d, chain[0].follows)
  {
    hide DatagramAt;
    assert EntryAt(b, chain, 0);
  }

  lemma {:induction false} OneEntry(b: seq<byte>, e: Entry)
    requires DatagramAt(b, FIRST, e.d, e.follows)
    ensures ChainAt(b, [e]) && PosOf([e], 1) == FIRST + OVERHEAD + |e.d.data|
  {
    hide DatagramAt;
    assert EntryAt(b, [e], 0);
  }

  lemma {:induction false} AddEntry(b: seq<byte>, chain: seq<Entry>, e: Entry)
    requires ChainAt(b, chain) && DatagramAt(b, PosOf(chain, |chain|), e.d, e.follows)
    ensures ChainAt(b, chain + [e])
    ensures PosOf(chain + [e], |chain| + 1) == PosOf(chain, |chain|) + OVERHEAD + |e.d.data|
    ensures PosOf(chain + [e], |chain|) == PosOf(chain, |chain|)
  {
    hide DatagramAt;
    hide PosOf;
    var all := chain + [e];
    SamePos(chain, all, |chain|);
    PosOfLast(all);
    forall k | 0 <= k < |all| ensures EntryAt(b, all, k) {
      SamePos(chain, all, if k < |chain| then k else |chain|);
      if k < |chain| {
        assert EntryAt(b, chain, k);
      }
    }
  }

  lemma {:induction false} PosOfLast(chain: seq<Entry>)
    requires chain != []
    ensures PosOf(chain, |chain|) == PosOf(chain, |chain| - 1) + OVERHEAD + |chain[|chain| - 1].d.data|
  {
  }

  /** Setting the mark of the first datagram and nothing else. */
  lemma {:induction false} MarkChain(b: seq<byte>, c: seq<byte>, chain: seq<Entry>)
    requires chain != [] && ChainAt(b, chain) && SameOutside(b, c, FIRST + 6, FIRST + 8) && |b| == |c| >= FIRST + 8
    requires WordAt(b, FIRST + 6) % EC_DATAGRAMFOLLOWS + EC_DATAGRAMFOLLOWS == WordAt(c, FIRST + 6)
    ensures ChainAt(c, Marked(chain))
  {
    hide DatagramAt, SameOutside, PosOf, WordAt;
    var marked := Marked(chain);
    forall k | 0 <= k < |chain| ensures EntryAt(c, marked, k) {
      MarkedPos(chain, k);
      assert EntryAt(b, chain, k);
      if k == 0 {
        AtFirst(chain);
        MarkDatagram(b, c, chain[0].d, chain[0].follows);
      } else {
        AtFirst(chain);
        PosGrows(chain, 0, k);
        SameDatagram(b, c, FIRST + 6, FIRST + 8, PosOf(chain, k), chain[k].d, chain[k].follows);
      }
    }
  }

  lemma {:induction false} AtFirst(chain: seq<Entry>)
    ensures PosOf(chain, 0) == FIRST
  {
  }

  lemma {:induction false} MarkDatagram(b: seq<byte>, c: seq<byte>, d: Datagram, follows: bool)
    requires DatagramAt(b, FIRST, d, follows) && SameOutside(b, c, FIRST + 6, FIRST + 8)
    requires WordAt(b, FIRST + 6) % EC_DATAGRAMFOLLOWS + EC_DATAGRAMFOLLOWS == WordAt(c, FIRST + 6)
    ensures DatagramAt(c, FIRST, d, true)
  {
    hide WordAt;
    SameWord(b, c, FIRST + 6, FIRST + 8, FIRST + 2);
    SameWord(b, c, FIRST + 6, FIRST + 8, FIRST + 4);
    SameWord(b, c, FIRST + 6, FIRST + 8, FIRST + 10 + |d.data|);
    SameSlice(b, c, FIRST + 6, FIRST + 8, FIRST + 10, FIRST + 10 + |d.data|);
  }

  /** The length word of a datagram, with its mark. */
  lemma {:induction false} LengthWord(w: nat, n: nat, follows: bool)
    requires n < 2048 && w == n + (if follows then EC_DATAGRAMFOLLOWS else 0)
    ensures w % 2048 == n && (w >= EC_DATAGRAMFOLLOWS <==> follows)
  {
  }

  /** One step of the receiver's way. */
  lemma {:induction false} WalkOnce(b: seq<byte>, pos: nat, n: nat, follows: bool)
    requires n < 2048 && pos + OVERHEAD + n <= |b|
    requires WordAt(b, pos + 6) == n + (if follows then EC_DATAGRAMFOLLOWS else 0)
    ensures Walk(b, pos)
            == [Datagram(b[pos], b[pos + 1], WordAt(b, pos + 2), WordAt(b, pos + 4), b[pos + 10..pos + 10 + n])]
               + (if follows then Walk(b, pos + OVERHEAD + n) else [])
  {
    LengthWord(WordAt(b, pos + 6), n, follows);
    hide WordAt;
  }

  lemma {:induction false} WalkStep(b: seq<byte>, pos: nat, d: Datagram, follows: bool)
    requires DatagramAt(b, pos, d, follows)
    ensures pos + OVERHEAD + |d.data| <= |b|
    ensures Walk(b, pos) == [d] + (if follows then Walk(b, pos + OVERHEAD + |d.data|) else [])
  {
    WalkOnce(b, pos, |d.data|, follows);
    hide WordAt, Walk;
  }

  function Datagrams(chain: seq<Entry>): (ds: seq<Datagram>)
    ensures |ds| == |chain| && forall k :: 0 <= k < |ds| ==> ds[k] == chain[k].d
  {
    seq(|chain|, k requires 0 <= k < |chain| => chain[k].d)
  }

  /** All datagrams from `k` on but the last are marked. */
  ghost predicate Linked(chain: seq<Entry>, k: nat) {
    forall i {:trigger chain[i]} :: k <= i < |chain| - 1 ==> chain[i].follows
  }

  /** Walking a chain that ends without a mark recovers all of it, exactly if all others are marked. */
  lemma {:induction false} WalkRecovers(b: seq<byte>, chain: seq<Entry>, k: nat)
    requires ChainAt(b, chain) && k < |chain| && !chain[|chain| - 1].follows
    ensures PosOf(chain, k) <= |b|
    ensures |Walk(b, PosOf(chain, k))| <= |chain| - k
    ensures Linked(chain, k) ==> Walk(b, PosOf(chain, k)) == Datagrams(chain)[k..]
    ensures !Linked(chain, k) ==> |Walk(b, PosOf(chain, k))| < |chain| - k
    decreases |chain| - k
  {
    hide DatagramAt, Walk, PosOf;
    assert EntryAt(b, chain, k);
    WalkStep(b, PosOf(chain, k), chain[k].d, chain[k].follows);
    var ds := Datagrams(chain);
    assert ds[k..] == [ds[k]] + ds[k + 1..];
    if k < |chain| - 1 {
      NextPos(chain, k);
      WalkRecovers(b, chain, k + 1);
    }
  }

  lemma {:induction false} NextPos(chain: seq<Entry>, k: nat)
    requires k < |chain|
    ensures PosOf(chain, k + 1) == PosOf(chain, k) + OVERHEAD + |chain[k].d.data|
  {
  }

  /** The chain that one setup and a number of adds leave behind. */
  function Built(ds: seq<Datagram>, more: seq<bool>, k: nat): (chain: seq<Entry>)
    requires 0 < k <= |ds| == |more|
    ensures |chain| == k
  {
    if k == 1 then [Entry(Sent(ds[0]), false)] else Added(Built(ds, more, k - 1), ds[k - 1], more[k - 1])
  }

  lemma {:induction false} BuiltEntry(ds: seq<Datagram>, more: seq<bool>, k: nat, i: nat)
    requires 0 < k <= |ds| == |more| && i < k
    ensures Built(ds, more, k)[i] == Entry(Sent(ds[i]), if i == 0 then k > 1 else more[i])
  {
    hide Sent;
    if k > 1 && i < k - 1 {
      BuiltEntry(ds, more, k - 1, i);
    }
  }

  /** Every add but the last one says that another one follows. */
  ghost predicate MoreBetween(more: seq<bool>) {
    forall i {:trigger more[i]} :: 0 < i < |more| - 1 ==> more[i]
  }

  /** A frame of one setup and any number of adds, the last one without `more`, parses back to exactly
      the datagrams that were put in, if and only if `more` was set on all adds but the last. */
  lemma {:induction false} FrameParsesBack(b: seq<byte>, ds: seq<Datagram>, more: seq<bool>)
    requires 0 < |ds| == |more| && !more[|ds| - 1] && ChainAt(b, Built(ds, more, |ds|))
    ensures Walk(b, FIRST) == Datagrams(Built(ds, more, |ds|)) <==> MoreBetween(more)
    ensures forall i :: 0 <= i < |ds| ==> Datagrams(Built(ds, more, |ds|))[i] == Sent(ds[i])
  {
    hide DatagramAt, Built, Sent, ChainAt, Walk;
    var chain := Built(ds, more, |ds|);
    forall i | 0 <= i < |ds| ensures chain[i] == Entry(Sent(ds[i]), if i == 0 then |ds| > 1 else more[i]) {
      BuiltEntry(ds, more, |ds|, i);
    }
    WalkRecovers(b, chain, 0);
    assert Datagrams(chain)[0..] == Datagrams(chain);
  }

  /** The size of a frame with the first `k` datagrams. */
  function FrameSize(ds: seq<Datagram>, k: nat): nat
    requires k <= |ds|
  {
    if k == 0 then FIRST else FrameSize(ds, k - 1) + OVERHEAD + |ds[k - 1].data|
  }

  lemma {:induction false} SizesGrow(ds: seq<Datagram>, j: nat, k: nat)
    requires j <= k <= |ds|
    ensures FrameSize(ds, j) <= FrameSize(ds, k)
  {
    if j < k {
      SizesGrow(ds, j, k - 1);
    }
  }

  lemma {:induction false} BuiltSize(ds: seq<Datagram>, more: seq<bool>, k: nat)
    requires 0 < k <= |ds| == |more|
    ensures PosOf(Built(ds, more, k), k) == FrameSize(ds, k)
  {
    hide Marked;
    if k > 1 {
      var before := Built(ds, more, k - 1);
      BuiltSize(ds, more, k - 1);
      MarkedPos(before, k - 1);
      SamePos(Marked(before), Built(ds, more, k), k - 1);
    }
  }

  /** The datagrams as they are sent. */
  function AllSent(ds: seq<Datagram>): (r: seq<Datagram>)
    ensures |r| == |ds| && forall i {:trigger ds[i]} :: 0 <= i < |ds| ==> r[i] == Sent(ds[i])
  {
    seq(|ds|, i requires 0 <= i < |ds| => Sent(ds[i]))
  }

  /** Builds a frame with one setup and as many adds as it takes. It parses back to the datagrams, if and
      only if all adds but the last said that another one follows. */
  method BuildFrame(port: Port, ds: seq<Datagram>, more: seq<bool>)
    requires 0 < |ds| == |more| && port.txbuf.Length == EC_BUFSIZE && FrameSize(ds, |ds|) <= EC_BUFSIZE
    modifies port, port.txbuf
    ensures port.Holds(Built(ds, more, |ds|)) && port.txbuflength == FrameSize(ds, |ds|)
    ensures !more[|ds| - 1] ==> (Walk(port.txbuf[..], FIRST) == AllSent(ds) <==> MoreBetween(more))
  {
    hide Walk, Built, ChainAt, Added, Sent, WordAt, PosOf, MoreBetween;
    SizesGrow(ds, 1, |ds|);
    BuiltFirst(ds, more);
    port.SetupDatagram(ds[0]);
    var k := 1;
    while k < |ds|
      invariant 1 <= k <= |ds| && port.Holds(Built(ds, more, k))
    {
      BuiltSize(ds, more, k);
      SizesGrow(ds, k + 1, |ds|);
      BuiltNext(ds, more, k);
      var _ := port.AddDatagram(ds[k], more[k], Built(ds, more, k));
      k := k + 1;
    }
    BuiltSize(ds, more, |ds|);
    if !more[|ds| - 1] {
      FrameParsesBack(port.txbuf[..], ds, more);
      assert Datagrams(Built(ds, more, |ds|)) == AllSent(ds);
    }
  }

  lemma {:induction false} BuiltFirst(ds: seq<Datagram>, more: seq<bool>)
    requires 0 < |ds| == |more|
    ensures Built(ds, more, 1) == [Entry(Sent(ds[0]), false)] && FrameSize(ds, 1) == FIRST + OVERHEAD + |ds[0].data|
  {
  }

  lemma {:induction false} BuiltNext(ds: seq<Datagram>, more: seq<bool>, k: nat)
    requires 0 < k < |ds| == |more|
    ensures Built(ds, more, k + 1) == Added(Built(ds, more, k), ds[k], more[k])
    ensures FrameSize(ds, k + 1) == FrameSize(ds, k) + OVERHEAD + |ds[k].data|
  {
    hide Added;
  }

  /** For example, of three datagrams the third one is lost if the second was added as if it were the
      last. */
  lemma {:induction false} ThirdIsLost(b: seq<byte>, d0: Datagram, d1: Datagram, d2: Datagram)
    requires ChainAt(b, Built([d0, d1, d2], [false, false, false], 3))
    ensures Walk(b, FIRST) == [Sent(d0), Sent(d1)]
  {
    hide DatagramAt, Walk, Sent, ChainAt, Built, PosOf;
    var ds, more := [d0, d1, d2], [false, false, false];
    var chain := Built(ds, more, 3);
    BuiltEntry(ds, more, 3, 0);
    BuiltEntry(ds, more, 3, 1);
    InChain(b, chain, 0);
    InChain(b, chain, 1);
    WalkStep(b, PosOf(chain, 0), Sent(d0), true);
    WalkStep(b, PosOf(chain, 1), Sent(d1), false);
    NextPos(chain, 0);
    AtFirst(chain);
  }

  lemma {:induction false} InChain(b: seq<byte>, chain: seq<Entry>, k: nat)
    requires ChainAt(b, chain) && k < |chain|
    ensures DatagramAt(b, PosOf(chain, k), chain[k].d, chain[k].follows)
  {
    hide DatagramAt, PosOf;
    assert EntryAt(b, chain, k);
  }

  /** The largest segment of the process image and the datagram for the clock fill a frame of at most
      1514 bytes. */
  lemma {:induction false} FirstFrameFits(segment: Entry, clock: Entry)
    requires |segment.d.data| <= 1466 && |clock.d.data| == 8
    ensures PosOf([segment, clock], 2) <= 1514 < EC_BUFSIZE
    ensures |segment.d.data| == 1466 ==> PosOf([segment, clock], 2) == 1514
  {
    assert PosOf([segment, clock], 1) == FIRST + OVERHEAD + |segment.d.data|;
  }
}
