/** Bytes in memory, and copying them into a buffer (memcpy). */
module Memory {

  type byte = b: nat | b < 256

  type word = w: nat | w < 65536

  datatype Option<T> = None | Some(value: T)

  /** The `n` bytes of a number, lowest byte first. */
  function Little(x: nat, n: nat): (b: seq<byte>)
    ensures |b| == n
  {
    if n == 0 then [] else [x % 256] + Little(x / 256, n - 1)
  }

  lemma {:induction false} LittleTwo(x: nat)
    requires x < 65536
    ensures Little(x, 2) == [x % 256, x / 256]
  {
    assert Little(x / 256, 1) == [x / 256 % 256] + Little(x / 256 / 256, 0);
  }

  lemma {:induction false} LittleFour(x: nat)
    requires x < 0x1_0000_0000
    ensures var b := Little(x, 4);
            (b[0] as int) + 256 * (b[1] as int) + 65536 * (b[2] as int) + 16777216 * (b[3] as int) == x
  {
    var b, c, d := Little(x, 4), Little(x / 256, 3), Little(x / 256 / 256, 2);
    LittleTwo(x / 256 / 256);
    assert b == [x % 256] + c && c == [x / 256 % 256] + d;
    assert d[0] == x / 65536 % 256 && d[1] == x / 65536 / 256;
    assert b[1] == c[0] && b[2] == d[0] && b[3] == d[1];
  }

  /** A buffer with `data` put at position `at`. */
  function Patch(image: seq<byte>, at: nat, data: seq<byte>): (r: seq<byte>)
    requires at + |data| <= |image|
    ensures |r| == |image|
  {
    image[..at] + data + image[at + |data|..]
  }

  lemma {:induction false} PatchNothing(image: seq<byte>)
    ensures Patch(image, 0, []) == image
  {
  }

  /** Data that are put one behind the other. */
  lemma {:induction false} PatchMore(image: seq<byte>, got: seq<byte>, data: seq<byte>)
    requires |got| + |data| <= |image|
    ensures Patch(Patch(image, 0, got), |got|, data) == Patch(image, 0, got + data)
  {
  }

  method CopyIn(buffer: array<byte>, at: nat, data: seq<byte>)
    requires at + |data| <= buffer.Length
    modifies buffer
    ensures buffer[..] == Patch(old(buffer[..]), at, data)
  {
    ghost var image := buffer[..];
    var i := 0;
    while i < |data|
      invariant 0 <= i <= |data|
      invariant forall k :: 0 <= k < buffer.Length ==>
                  buffer[k] == if at <= k < at + i then data[k - at] else image[k]
    {
      buffer[at + i] := data[i];
      i := i + 1;
    }
  }
}
