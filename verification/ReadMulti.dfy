/** Reading the AL status of up to 64 slaves with one frame (ecx_FPRD_multi). */
module ReadMulti {
  import opened Memory
  import opened FrameBuilder

  const MAX_FPRD_MULTI := 64
  const ECT_REG_ALSTAT := 0x0130
  const STATUS_SIZE := 6

  /** What a slave holds at the register: its AL status, a reserved word, and the status code. */
  datatype Status = Status(alstatus: word, unused: word, alstatuscode: word)

  function StatusBytes(s: Status): (b: seq<byte>)
    ensures |b| == STATUS_SIZE
  {
    [s.alstatus % 256, s.alstatus / 256, s.unused % 256, s.unused / 256, s.alstatuscode % 256, s.alstatuscode / 256]
  }

  /** The frame on its way through the slaves: each datagram for the status register is filled by the
      slave with the station address it names, as long as another datagram follows. */
  function Answered(b: seq<byte>, pos: nat, bus: word -> Status): (r: seq<byte>)
    ensures |r| == |b|
    decreases |b| - pos
  {
    if pos + OVERHEAD > |b| then b
    else
      var n := WordAt(b, pos + 6) % 2048;
      if pos + OVERHEAD + n > |b| then b
      else
        var c := if b[pos] == 4 && WordAt(b, pos + 4) == 0x0130 && n == 6
                 then Patch(b, pos + 10, StatusBytes(bus(WordAt(b, pos + 2)))) else b;
        if WordAt(b, pos + 6) >= EC_DATAGRAMFOLLOWS then Answered(c, pos + OVERHEAD + n, bus) else c
  }

  /** A datagram that asks for the status of one slave. */
  function Question(configadr: word, index: byte): Datagram {
    Datagram(EC_CMD_FPRD, index, configadr, ECT_REG_ALSTAT, seq<byte>(STATUS_SIZE, i => 0))
  }

  ghost predicate Questions(chain: seq<Entry>, configlst: seq<word>, index: byte) {
    |chain| <= |configlst| && forall k {:trigger chain[k]} :: 0 <= k < |chain| ==>
        chain[k].d == Question(configlst[k], index)
  }

  lemma {:induction false} QuestionPos(chain: seq<Entry>, configlst: seq<word>, index: byte, k: nat)
    requires Questions(chain, configlst, index) && k <= |chain|
    ensures PosOf(chain, k) == FIRST + 18 * k
  {
    if k > 0 {
      QuestionPos(chain, configlst, index, k - 1);
    }
  }

  /** One datagram on its way. */
  lemma {:induction false} AnswerStep(b: seq<byte>, pos: nat, configadr: word, index: byte, follows: bool,
                                      bus: word -> Status)
    requires DatagramAt(b, pos, Question(configadr, index), follows)
    ensures pos + 18 <= |b|
    ensures var c := Patch(b, pos + 10, StatusBytes(bus(configadr)));
            Answered(b, pos, bus) == if follows then Answered(c, pos + 18, bus) else c
  {
    hide WordAt, Patch, StatusBytes;
    assert WordAt(b, pos + 6) % 2048 == STATUS_SIZE;
  }

  ghost predicate ChainFrom(b: seq<byte>, chain: seq<Entry>, k: nat) {
    forall i {:trigger EntryAt(b, chain, i)} :: k <= i < |chain| ==> EntryAt(b, chain, i)
  }

  /** What lies before a datagram is not changed from it on. */
  lemma {:induction false} AnsweredKeeps(b: seq<byte>, pos: nat, bus: word -> Status, i: nat)
    requires i < pos && i < |b|
    ensures Answered(b, pos, bus)[i] == b[i]
    decreases |b| - pos
  {
    hide WordAt, StatusBytes;
    if pos + OVERHEAD <= |b| {
      var n := WordAt(b, pos + 6) % 2048;
      if pos + OVERHEAD + n <= |b| && n == STATUS_SIZE {
        AnsweredKeeps(Patch(b, pos + 10, StatusBytes(bus(WordAt(b, pos + 2)))), pos + OVERHEAD + n, bus, i);
      }
      if pos + OVERHEAD + n <= |b| {
        AnsweredKeeps(b, pos + OVERHEAD + n, bus, i);
      }
    }
  }

  lemma {:induction false} AnsweredKeepsSlice(b: seq<byte>, pos: nat, bus: word -> Status, lo: nat, hi: nat)
    requires lo <= hi <= pos && hi <= |b|
    ensures Answered(b, pos, bus)[lo..hi] == b[lo..hi]
  {
    hide Answered;
    forall i | lo <= i < hi ensures Answered(b, pos, bus)[i] == b[i] {
      AnsweredKeeps(b, pos, bus, i);
    }
  }

  lemma {:induction false} EntryFrom(b: seq<byte>, chain: seq<Entry>, configlst: seq<word>, index: byte, k: nat)
    requires ChainFrom(b, chain, k) && Questions(chain, configlst, index) && k < |chain|
    ensures DatagramAt(b, FIRST + 18 * k, Question(configlst[k], index), chain[k].follows)
    ensures FIRST + 18 * k + 18 <= |b|
  {
    hide PosOf;
    QuestionPos(chain, configlst, index, k);
    assert EntryAt(b, chain, k);
  }

  lemma {:induction false} ChainRest(b: seq<byte>, c: seq<byte>, chain: seq<Entry>, configlst: seq<word>, index: byte,
                                     k: nat)
    requires ChainFrom(b, chain, k) && Questions(chain, configlst, index) && k < |chain|
    requires SameOutside(b, c, FIRST + 18 * k + 10, FIRST + 18 * k + 16)
    ensures ChainFrom(c, chain, k + 1)
  {
    hide DatagramAt, SameOutside, PosOf;
    forall i | k + 1 <= i < |chain| ensures EntryAt(c, chain, i) {
      assert EntryAt(b, chain, i);
      QuestionPos(chain, configlst, index, i);
      SameDatagram(b, c, FIRST + 18 * k + 10, FIRST + 18 * k + 16, PosOf(chain, i), chain[i].d, chain[i].follows);
    }
  }

  /** All datagrams from `k` on are answered. */
  lemma {:induction false} AllAnswered(b: seq<byte>, chain: seq<Entry>, configlst: seq<word>, index: byte, k: nat,
                                       bus: word -> Status, j: nat)
    requires ChainFrom(b, chain, k) && Questions(chain, configlst, index) && Linked(chain, 0) && k <= j < |chain|
    requires !chain[|chain| - 1].follows
    ensures FIRST + 18 * (j + 1) <= |b|
    ensures Answered(b, FIRST + 18 * k, bus)[FIRST + 18 * j + 10..FIRST + 18 * j + 16] == StatusBytes(bus(configlst[j]))
    decreases |chain| - k
  {
    hide DatagramAt, Answered, Patch, StatusBytes, PosOf, Question, ChainFrom, SameOutside;
    EntryFrom(b, chain, configlst, index, k);
    AnswerStep(b, FIRST + 18 * k, configlst[k], index, chain[k].follows, bus);
    var c := Patch(b, FIRST + 18 * k + 10, StatusBytes(bus(configlst[k])));
    Patched(b, FIRST + 18 * k + 10, StatusBytes(bus(configlst[k])));
    if k < |chain| - 1 {
      ChainRest(b, c, chain, configlst, index, k);
      if j > k {
        AllAnswered(c, chain, configlst, index, k + 1, bus, j);
      } else {
        AnsweredKeepsSlice(c, FIRST + 18 * (k + 1), bus, FIRST + 18 * k + 10, FIRST + 18 * k + 16);
      }
    }
  }

  function StatusAt(b: seq<byte>, pos: nat): Status
    requires pos + STATUS_SIZE <= |b|
  {
    Status(WordAt(b, pos), WordAt(b, pos + 2), WordAt(b, pos + 4))
  }

  lemma {:induction false} StatusIsRead(b: seq<byte>, pos: nat, s: Status)
    requires pos + STATUS_SIZE <= |b| && b[pos..pos + STATUS_SIZE] == StatusBytes(s)
    ensures StatusAt(b, pos) == s
  {
    forall i | 0 <= i < STATUS_SIZE ensures b[pos + i] == StatusBytes(s)[i] {
      assert b[pos + i] == b[pos..pos + STATUS_SIZE][i];
    }
    assert b[pos] == StatusBytes(s)[0] && b[pos + 1] == StatusBytes(s)[1] && b[pos + 2] == StatusBytes(s)[2];
    assert b[pos + 3] == StatusBytes(s)[3] && b[pos + 4] == StatusBytes(s)[4] && b[pos + 5] == StatusBytes(s)[5];
  }

  /** The questions asked so far, all marked but perhaps the last one. */
  ghost predicate Asked(chain: seq<Entry>, configlst: seq<word>, index: byte, last: bool) {
    chain != [] && Questions(chain, configlst, index) && Linked(chain, 0) && chain[|chain| - 1].follows == last
  }

  lemma {:induction false} AskedFirst(configlst: seq<word>, index: byte)
    requires configlst != []
    ensures Sent(Question(configlst[0], index)) == Question(configlst[0], index)
    ensures Asked([Entry(Question(configlst[0], index), false)], configlst, index, false)
  {
  }

  lemma {:induction false} AskedNext(chain: seq<Entry>, configlst: seq<word>, index: byte, more: bool)
    requires Asked(chain, configlst, index, |chain| > 1) && |chain| < |configlst|
    ensures Asked(Added(chain, Question(configlst[|chain|], index), more), configlst, index, more)
  {
    var d := Question(configlst[|chain|], index);
    assert Sent(d) == d;
    hide Question;
    var all := Added(chain, d, more);
    assert forall k {:trigger all[k]} :: 0 < k < |chain| ==> all[k] == chain[k];
  }

  /** One more question in the frame. */
  method Ask(port: Port, index: byte, more: bool, configlst: seq<word>, slcnt: nat, ghost chain: seq<Entry>)
      returns (pos: nat, ghost next: seq<Entry>)
    requires port.Holds(chain) && Asked(chain, configlst, index, |chain| > 1)
    requires slcnt == |chain| < |configlst| <= MAX_FPRD_MULTI
    modifies port`txbuflength, port.txbuf
    ensures port.Holds(next) && Asked(next, configlst, index, more) && |next| == |chain| + 1
    ensures pos == FIRST + 18 * slcnt + 10 - ETH_HEADERSIZE
  {
    hide Question, PosOf, ChainAt;
    QuestionPos(chain, configlst, index, |chain|);
    QuestionSize(configlst[slcnt], index);
    pos := port.AddDatagram(Question(configlst[slcnt], index), more, chain);
    next := Added(chain, Question(configlst[slcnt], index), more);
    AskedNext(chain, configlst, index, more);
    QuestionPos(next, configlst, index, |chain|);
  }

  lemma {:induction false} QuestionSize(configadr: word, index: byte)
    ensures |Question(configadr, index).data| == STATUS_SIZE
  {
  }

  lemma {:induction false} ReadBack(tx: seq<byte>, chain: seq<Entry>, configlst: seq<word>, index: byte,
                                    bus: word -> Status, k: nat)
    requires ChainAt(tx, chain) && Asked(chain, configlst, index, false) && k < |chain| && |tx| >= ETH_HEADERSIZE
    ensures var rx := Answered(tx, FIRST, bus)[ETH_HEADERSIZE..]; var pos := FIRST + 18 * k + 10 - ETH_HEADERSIZE;
            pos + STATUS_SIZE <= |rx| && StatusAt(rx, pos) == bus(configlst[k])
  {
    hide DatagramAt, Answered, StatusBytes, StatusAt, PosOf, Question, Linked;
    assert ChainFrom(tx, chain, 0);
    AllAnswered(tx, chain, configlst, index, 0, bus, k);
    var r := Answered(tx, FIRST, bus);
    var pos := FIRST + 18 * k + 10;
    assert r[ETH_HEADERSIZE..][pos - ETH_HEADERSIZE..pos - ETH_HEADERSIZE + STATUS_SIZE] == r[pos..pos + STATUS_SIZE];
    StatusIsRead(r[ETH_HEADERSIZE..], pos - ETH_HEADERSIZE, bus(configlst[k]));
  }

  /** Asks all slaves of a list for their status with one frame. */
  method Read(port: Port, index: byte, configlst: seq<word>, bus: word -> Status) returns (slstatlst: seq<Status>)
    requires port.txbuf.Length == EC_BUFSIZE && 0 < |configlst| <= MAX_FPRD_MULTI
    modifies port`txbuflength, port.txbuf
    ensures |slstatlst| == |configlst| && forall k :: 0 <= k < |configlst| ==> slstatlst[k] == bus(configlst[k])
  {
    hide Question, Answered, StatusAt, StatusBytes, ChainAt, Asked, PosOf;
    var n := |configlst|;
    var sldatapos: seq<nat> := [EC_HEADERSIZE];
    QuestionSize(configlst[0], index);
    AskedFirst(configlst, index);
    port.SetupDatagram(Question(configlst[0], index));
    ghost var chain := [Entry(Question(configlst[0], index), false)];
    var slcnt := 1;
    while slcnt < n - 1
      modifies port`txbuflength, port.txbuf
      invariant 1 <= slcnt <= n && (slcnt < n || n == 1) && slcnt == |chain| == |sldatapos|
      invariant port.Holds(chain) && Asked(chain, configlst, index, slcnt > 1)
      invariant Positions(sldatapos)
    {
      var pos: nat;
      pos, chain := Ask(port, index, true, configlst, slcnt, chain);
      sldatapos := sldatapos + [pos];
      slcnt := slcnt + 1;
    }
    if slcnt < n {
      var pos: nat;
      pos, chain := Ask(port, index, false, configlst, slcnt, chain);
      sldatapos := sldatapos + [pos];
    }
    ghost var tx := port.txbuf[..];
    assert ChainAt(tx, chain);
    assert |chain| == n;
    assert Asked(chain, configlst, index, false);
    var rx := Answered(port.txbuf[..], FIRST, bus)[ETH_HEADERSIZE..];
    slstatlst := [];
    slcnt := 0;
    while slcnt < n
      invariant slcnt == |slstatlst| <= n
      invariant forall k :: 0 <= k < slcnt ==> slstatlst[k] == bus(configlst[k])
    {
      ReadBack(tx, chain, configlst, index, bus, slcnt);
      slstatlst := slstatlst + [StatusAt(rx, sldatapos[slcnt])];
      slcnt := slcnt + 1;
    }
  }

  ghost predicate Positions(sldatapos: seq<nat>) {
    forall k {:trigger sldatapos[k]} :: 0 <= k < |sldatapos| ==> sldatapos[k] == FIRST + 18 * k + 10 - ETH_HEADERSIZE
  }
}
