/** How the SDO service codes its messages: the rules that a slave follows, and by which the messages of the
    master are judged. Nothing here is computed by the master. */
module SdoWire {
  import opened Memory
  import opened SdoMessages

  /** A mailbox message of CANopen (type 3), a request (service 2) or a response (service 3). */
  predicate Coe(m: Msg, service: nat) { m.mbxtype % 16 == 3 && m.canopen / 4096 == service }

  /** A message about an object: the index comes first, and then the subindex. */
  predicate OfObject(m: Msg, index: nat) { index < 65536 && |m.tail| >= 7 && m.tail[..2] == Little(index, 2) }

  predicate About(m: Msg, index: nat, subindex: nat) { OfObject(m, index) && m.tail[2] == subindex }

  /** 32 bits behind them: data, or the size of the object. */
  predicate Carries(m: Msg, word: nat) {
    word < 0x1_0000_0000 && |m.tail| >= 7 && m.tail[3..7] == Little(word, 4)
  }

  lemma {:induction false} IndexIsRead(m: Msg, index: nat)
    requires index < 65536 && |m.tail| >= 7
    ensures Index(m) == index <==> OfObject(m, index)
  {
    LittleTwo(index);
    assert m.tail[..2] == [m.tail[0], m.tail[1]];
  }

  lemma {:induction false} WordIsRead(m: Msg, word: nat)
    requires Carries(m, word)
    ensures Word(m) == word
  {
    hide Little;
    LittleFour(word);
    assert forall i {:trigger m.tail[i]} :: 3 <= i < 7 ==> m.tail[i] == m.tail[3..7][i - 3];
  }

  /** The command byte of a segment: bit 4 is the toggle, bits 1 to 3 count the bytes of seven that are not
      used, and bit 0 marks the last one. */
  function SegmentCode(toggle: nat, unused: nat, last: bool): nat { 16 * toggle + 2 * unused + (if last then 1 else 0) }

  /** A segment with `n` bytes of the object from position `o` on. It has at least seven bytes, and the last one
      tells how many of just seven are not used. */
  ghost predicate SegmentOf(m: Msg, service: nat, value: seq<byte>, o: nat, n: nat, last: bool, toggle: nat,
                            unused: nat) {
    && Coe(m, service) && o + n <= |value| && toggle < 2 && unused < 8
    && (n < 7 ==> last) && (n <= 7 && last ==> unused == 7 - n)
    && m.command == SegmentCode(toggle, unused, last)
    && m.length == 3 + (if n < 7 then 7 else n) && m.length < 65536
    && m.length - 3 <= |m.tail| && m.tail[..n] == value[o..o + n]
  }

  /** ... and how the master reads it. */
  lemma {:induction false} SegmentIsRead(m: Msg, service: nat, value: seq<byte>, o: nat, n: nat, last: bool,
                                         toggle: nat, unused: nat)
    requires SegmentOf(m, service, value, o, n, last, toggle, unused)
    ensures WellFormed(m) && IsSegment(m, service) && Toggle(m) == toggle
    ensures SegmentData(m) == value[o..o + n] && (IsLast(m) <==> last)
  {
  }

  /** An object of one to four bytes within one message: bit 1 of the command byte is set, and bits 2 and 3 count
      the bytes of four that are not used. */
  ghost predicate ExpeditedOf(m: Msg, value: seq<byte>) {
    && 1 <= |value| <= 4 && m.command / 2 % 2 == 1 && m.command / 4 % 4 == 4 - |value|
    && |m.tail| >= 7 && m.tail[3..3 + |value|] == value
  }

  lemma {:induction false} DataIsRead(m: Msg, value: seq<byte>)
    requires WellFormed(m) && ExpeditedOf(m, value)
    ensures IsExpedited(m) && ExpeditedData(m) == value
  {
  }

  /** The size of an object and its first `n` bytes: bit 1 of the command byte is not set. */
  ghost predicate InitOf(m: Msg, value: seq<byte>, n: nat) {
    && m.command / 2 % 2 == 0 && Carries(m, |value|) && n <= |value|
    && m.length == 10 + n && 7 + n <= |m.tail| && m.tail[7..7 + n] == value[..n]
  }

  lemma {:induction false} InitIsRead(m: Msg, value: seq<byte>, n: nat)
    requires WellFormed(m) && InitOf(m, value, n)
    ensures !IsExpedited(m) && Word(m) == |value| && InitSize(m) == n && InitData(m) == value[..n]
  {
    WordIsRead(m, |value|);
    hide Word;
  }

  /** The answer that confirms the start of a download. */
  predicate ConfirmsInit(a: Msg, index: nat, subindex: nat) {
    Coe(a, 3) && About(a, index, subindex) && a.command == 0x60
  }

  /** The answer that confirms segment `k`, and repeats its toggle. */
  predicate ConfirmsSegment(a: Msg, k: nat) {
    Coe(a, 3) && k > 0 && a.command == 0x20 + 16 * ((k - 1) % 2)
  }

  /** A slave that confirms all messages of a download. */
  ghost predicate Confirms(answers: nat -> Option<Msg>, index: nat, subindex: nat) {
    && answers(0).Some? && ConfirmsInit(answers(0).value, index, subindex)
    && forall k {:trigger answers(k)} :: k > 0 ==> answers(k).Some? && ConfirmsSegment(answers(k).value, k)
  }

  /** A message that aborts a transfer. */
  predicate Aborts(a: Option<Msg>) { a.Some? && a.value.command == 0x80 }
}
