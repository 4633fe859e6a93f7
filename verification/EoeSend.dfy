/** Ethernet frames sent through the mailbox: cutting a frame into fragments (ecx_EOEsend). */
module EoeSend {
  import opened Memory

  const EOE_TYPE := 2

  /** A mailbox message as it lies in memory: the type and length fields of the mailbox header, the two
      words of the EoE header, and the bytes behind the headers. */
  datatype Mail = Mail(mbxtype: nat, length: nat, info1: nat, info2: nat, data: seq<byte>)

  predicate IsEoe(m: Mail) { m.mbxtype % 16 == EOE_TYPE }

  /** The size of the data section, from the length field, in 16 bits. */
  function DataSize(m: Mail): nat { (m.length + 65532) % 65536 }

  function Port(m: Mail): nat { m.info1 / 16 % 16 }
  predicate LastFragment(m: Mail) { m.info1 / 256 % 2 == 1 }
  predicate TimeAppended(m: Mail) { m.info1 / 512 % 2 == 1 }
  function FragNo(m: Mail): nat { m.info2 % 64 }
  function OffsetField(m: Mail): nat { m.info2 / 64 % 64 }
  function FrameNo(m: Mail): nat { m.info2 / 4096 % 16 }

  /** The position of fragment `k` in its frame: what the fragments before it carry. */
  function OffsetOf(mails: seq<Mail>, k: nat): nat
    requires k <= |mails|
  {
    if k == 0 then 0 else OffsetOf(mails, k - 1) + |mails[k - 1].data|
  }

  /** The two words of the EoE header, each value cut to its width. */
  function Info1(last: bool, port: nat): (w: nat)
    ensures w / 16 % 16 == port % 16 && (w / 256 % 2 == 1 <==> last) && w / 512 % 2 == 0
  {
    (if last then 256 else 0) + port % 16 * 16
  }

  function Info2(fragno: nat, offset: nat, frameno: nat): (w: nat)
    ensures w % 64 == fragno % 64 && w / 64 % 64 == offset % 64 && w / 4096 % 16 == frameno % 16
  {
    Divisions(fragno % 64, offset % 64, frameno % 16);
    fragno % 64 + offset % 64 * 64 + frameno % 16 * 4096
  }

  lemma {:induction false} Divisions(a: nat, b: nat, c: nat)
    requires a < 64 && b < 64 && c < 16
    ensures (a + b * 64 + c * 4096) % 64 == a
    ensures (a + b * 64 + c * 4096) / 64 == b + c * 64
    ensures (b + c * 64) % 64 == b
    ensures (a + b * 64 + c * 4096) / 4096 == c
  {
  }

  /** The number of blocks of 32 bytes that hold `n` bytes. */
  function RoundUp(n: nat): (r: nat)
    ensures n <= 32 * r < n + 32
  {
    (n + 31) / 32
  }

  /** Fragment `k`, at position `o` of the frame. The fields are as narrow as the header makes them, and
      the 8-bit fragment counter restarts after 256 fragments, with a new frame number. */
  ghost predicate IsFragment(m: Mail, frame: seq<byte>, port: nat, start: nat, maxdata: nat, k: nat, o: nat) {
    && IsEoe(m) && m.length == 4 + |m.data| && DataSize(m) == |m.data| <= maxdata
    && Port(m) == port % 16 && !TimeAppended(m)
    && FragNo(m) == k % 64
    && FrameNo(m) == (start + 1 + k / 256) % 16
    && OffsetField(m) == (if k % 256 == 0 then RoundUp(|frame|) else o / 32) % 64
    && o + |m.data| <= |frame| && m.data == frame[o..o + |m.data|]
    && (LastFragment(m) <==> o + |m.data| == |frame|)
    && (!LastFragment(m) ==> |m.data| % 32 == 0 < |m.data|)
  }

  ghost predicate FragmentAt(mails: seq<Mail>, frame: seq<byte>, port: nat, start: nat, maxdata: nat, k: nat)
    requires k < |mails|
  {
    IsFragment(mails[k], frame, port, start, maxdata, k, OffsetOf(mails, k))
  }

  /** The fragments of a frame in order, from the first on. */
  ghost predicate Fragments(mails: seq<Mail>, frame: seq<byte>, port: nat, start: nat, maxdata: nat) {
    forall k {:trigger FragmentAt(mails, frame, port, start, maxdata, k)} :: 0 <= k < |mails| ==>
      FragmentAt(mails, frame, port, start, maxdata, k)
  }

  /** All fragments: only the last message is marked as last. */
  ghost predicate Complete(mails: seq<Mail>, frame: seq<byte>, port: nat, start: nat, maxdata: nat) {
    && Fragments(mails, frame, port, start, maxdata)
    && (forall k {:trigger mails[k]} :: 0 <= k < |mails| ==> (LastFragment(mails[k]) <==> k == |mails| - 1))
    && mails != [] && OffsetOf(mails, |mails|) == |frame|
  }

  /** No further block of 32 bytes would fit. */
  predicate Full(m: Mail, maxdata: int) { |m.data| <= maxdata < |m.data| + 32 }

  ghost predicate AllButLastFull(mails: seq<Mail>, maxdata: int) {
    forall k {:trigger mails[k]} :: 0 <= k < |mails| - 1 ==> Full(mails[k], maxdata)
  }

  /** The sender: its frame counter lives on between calls; `sent` are the messages put in the mailbox. */
  class Sender {
    const mbxl: nat
    var txframeno: nat
    var mbxcnt: nat
    var sent: seq<Mail>

    constructor (mbxl: nat)
      ensures this.mbxl == mbxl && txframeno == 0 && sent == []
    {
      this.mbxl := mbxl;
      txframeno, mbxcnt, sent := 0, 0, [];
    }

    /** Cuts a frame into messages. Without room for 32 bytes in a mailbox there would be no progress. */
    method Send(port: nat, frame: seq<byte>)
      requires mbxl >= 10 && |frame| < 65536 && (mbxl - 10 >= 32 || |frame| <= mbxl - 10)
      modifies this`txframeno, this`mbxcnt, this`sent
      ensures old(sent) <= sent
      ensures Complete(sent[|old(sent)|..], frame, port, old(txframeno), mbxl - 10)
      ensures AllButLastFull(sent[|old(sent)|..], mbxl - 10)
      ensures txframeno % 16 == (old(txframeno) + Rounds(|sent| - |old(sent)|)) % 16
    {
      hide IsFragment, Fragments, Complete, OffsetOf, LastFragment, AllUnmarked;
      var maxdata: int := mbxl - 10;
      var txfragmentno, txframeoffset: nat := 0, 0;
      var notLast := true;
      ghost var mine: seq<Mail> := [];
      ghost var start := txframeno;
      NothingSent(frame, port, start, maxdata);
      while notLast
        modifies this`txframeno, this`mbxcnt, this`sent
        invariant sent == old(sent) + mine
        invariant notLast ==> InProgress(mine, frame, port, start, maxdata, txframeoffset)
        invariant !notLast ==> Complete(mine, frame, port, start, maxdata)
        invariant AllButLastFull(mine, maxdata) && (notLast && mine != [] ==> Full(mine[|mine| - 1], maxdata))
        invariant notLast ==> txfragmentno == |mine| % 256
        invariant FramesCounted(txframeno, start, |mine|)
        decreases notLast, |frame| - txframeoffset
      {
        var m: Mail;
        m, notLast := SendFragment(port, frame, txfragmentno, txframeoffset, start, |mine|);
        AddFragment(mine, m, frame, port, start, maxdata, txframeoffset);
        mine := mine + [m];
        if notLast {
          txframeoffset := txframeoffset + |m.data|;
          txfragmentno := (txfragmentno + 1) % 256;
        }
      }
      assert sent[|old(sent)|..] == mine;
    }

    /** One message: as much as fits, in blocks of 32 bytes unless it is the rest. */
    method SendFragment(port: nat, frame: seq<byte>, txfragmentno: nat, o: nat, ghost start: nat, ghost k: nat)
        returns (m: Mail, notLast: bool)
      requires mbxl >= 10 && |frame| < 65536 && o <= |frame|
      requires mbxl - 10 >= 32 || |frame| <= mbxl - 10
      requires txfragmentno == k % 256 && FramesCounted(txframeno, start, k)
      modifies this`txframeno, this`mbxcnt, this`sent
      ensures sent == old(sent) + [m]
      ensures IsFragment(m, frame, port, start, mbxl - 10, k, o)
      ensures LastFragment(m) <==> !notLast
      ensures notLast ==> Full(m, mbxl - 10)
      ensures FramesCounted(txframeno, start, k + 1)
    {
      hide Info1, Info2, RoundUp, FramesCounted;
      var maxdata: int := mbxl - 10;
      var txframesize := |frame| - o;
      if txframesize > maxdata {
        txframesize := maxdata / 32 * 32;
      }
      notLast := txframesize != |frame| - o;
      var info1 := Info1(!notLast, port);
      var offset := o / 32;
      if txfragmentno == 0 {
        offset := RoundUp(|frame|);
        txframeno := (txframeno + 1) % 256;
      }
      CountFrame(old(txframeno), txframeno, start, k);
      var info2 := Info2(txfragmentno, offset, txframeno);
      mbxcnt := if mbxcnt + 1 > 7 then 1 else mbxcnt + 1;
      m := Mail(EOE_TYPE + mbxcnt * 16, 4 + txframesize, info1, info2, frame[o..o + txframesize]);
      sent := sent + [m];
      IsGood(m, frame, port, start, maxdata, k, o, notLast);
    }
  }

  /** How often the 8-bit fragment counter has started from 0 for `k` fragments. */
  function Rounds(k: nat): (r: nat)
    ensures k % 256 == 0 ==> r == k / 256
    ensures k % 256 != 0 ==> r == k / 256 + 1
  {
    (k + 255) / 256
  }

  /** The 8-bit frame counter after `k` fragments of a frame. */
  ghost predicate FramesCounted(txframeno: nat, start: nat, k: nat) {
    txframeno % 16 == (start + Rounds(k)) % 16
  }

  lemma {:induction false} CountFrame(before: nat, after: nat, start: nat, k: nat)
    requires FramesCounted(before, start, k)
    requires after == if k % 256 == 0 then (before + 1) % 256 else before
    ensures FramesCounted(after, start, k + 1)
    ensures after % 16 == (start + 1 + k / 256) % 16
  {
    hide Rounds;
    NextRound(k);
    if k % 256 == 0 {
      NextFrame(before, start + Rounds(k));
    }
  }

  lemma {:induction false} NextRound(k: nat)
    ensures Rounds(k + 1) == k / 256 + 1
  {
  }

  lemma {:induction false} NextFrame(before: nat, r: nat)
    requires before % 16 == r % 16
    ensures (before + 1) % 256 % 16 == (r + 1) % 16
  {
    Narrower(before + 1);
    Successor(before);
    Successor(r);
  }

  lemma {:induction false} Successor(x: nat)
    ensures (x + 1) % 16 == if x % 16 == 15 then 0 else x % 16 + 1
  {
  }

  lemma {:induction false} Narrower(x: nat)
    ensures x % 256 % 16 == x % 16
  {
  }

  lemma {:induction false} IsGood(m: Mail, frame: seq<byte>, port: nat, start: nat, maxdata: nat, k: nat, o: nat,
                                  notLast: bool)
    requires IsEoe(m) && m.length == 4 + |m.data| && |m.data| <= maxdata && |frame| < 65536
    requires Port(m) == port % 16 && !TimeAppended(m)
    requires FragNo(m) == k % 256 % 64
    requires FrameNo(m) == (start + 1 + k / 256) % 16
    requires OffsetField(m) == (if k % 256 == 0 then RoundUp(|frame|) else o / 32) % 64
    requires o + |m.data| <= |frame| && m.data == frame[o..o + |m.data|]
    requires LastFragment(m) <==> !notLast
    requires notLast <==> o + |m.data| != |frame|
    requires notLast ==> |m.data| % 32 == 0 < |m.data|
    ensures IsFragment(m, frame, port, start, maxdata, k, o)
  {
    hide IsEoe, Port, TimeAppended, LastFragment, FrameNo, OffsetField, RoundUp;
  }

  ghost predicate AllUnmarked(mails: seq<Mail>, k: nat) {
    k <= |mails| && forall i {:trigger mails[i]} :: 0 <= i < k ==> !LastFragment(mails[i])
  }

  lemma {:induction false} SameOffset(mails: seq<Mail>, m: Mail, k: nat)
    requires k <= |mails|
    ensures OffsetOf(mails + [m], k) == OffsetOf(mails, k)
  {
    if k > 0 {
      SameOffset(mails, m, k - 1);
    }
  }

  /** Some fragments have been sent, none of them the last one. */
  ghost predicate InProgress(mails: seq<Mail>, frame: seq<byte>, port: nat, start: nat, maxdata: nat, o: nat) {
    && Fragments(mails, frame, port, start, maxdata) && AllUnmarked(mails, |mails|)
    && o == OffsetOf(mails, |mails|) <= |frame|
  }

  lemma {:induction false} NothingSent(frame: seq<byte>, port: nat, start: nat, maxdata: nat)
    ensures InProgress([], frame, port, start, maxdata, 0)
  {
  }

  lemma {:induction false} OneMore(mails: seq<Mail>, m: Mail, frame: seq<byte>, port: nat, start: nat, maxdata: nat)
    requires Fragments(mails, frame, port, start, maxdata)
    requires IsFragment(m, frame, port, start, maxdata, |mails|, OffsetOf(mails, |mails|))
    ensures Fragments(mails + [m], frame, port, start, maxdata)
  {
    hide IsFragment, OffsetOf;
    forall k | 0 <= k <= |mails| ensures FragmentAt(mails + [m], frame, port, start, maxdata, k) {
      SameOffset(mails, m, k);
      if k < |mails| {
        assert FragmentAt(mails, frame, port, start, maxdata, k);
      }
    }
  }

  lemma {:induction false} AddFragment(mails: seq<Mail>, m: Mail, frame: seq<byte>, port: nat, start: nat, maxdata: nat,
                                       o: nat)
    requires InProgress(mails, frame, port, start, maxdata, o)
    requires IsFragment(m, frame, port, start, maxdata, |mails|, o)
    ensures !LastFragment(m) ==> InProgress(mails + [m], frame, port, start, maxdata, o + |m.data|) && |m.data| > 0
    ensures LastFragment(m) ==> Complete(mails + [m], frame, port, start, maxdata)
  {
    hide Fragments;
    OneMore(mails, m, frame, port, start, maxdata);
    SameOffset(mails, m, |mails|);
    assert OffsetOf(mails + [m], |mails| + 1) == o + |m.data|;
    FragmentEnds(m, frame, port, start, maxdata, |mails|, o);
    hide IsFragment, OffsetOf, LastFragment;
  }

  lemma {:induction false} FragmentEnds(m: Mail, frame: seq<byte>, port: nat, start: nat, maxdata: nat, k: nat, o: nat)
    requires IsFragment(m, frame, port, start, maxdata, k, o)
    ensures o + |m.data| <= |frame|
    ensures LastFragment(m) <==> o + |m.data| == |frame|
    ensures !LastFragment(m) ==> |m.data| > 0
  {
  }
}
