/** Byte strings and the small helpers shared by the key schedules. */
module Bytes {

  /** An octet, as Go's `byte`. */
  type byte = x: int | 0 <= x < 256

  /** A value that may be absent; `None` stands for a Go `nil` slice or interface. */
  datatype Option<+T> = None | Some(value: T)

  /** The bytes of an ASCII Go string constant. */
  function Ascii(s: string): (r: seq<byte>)
    requires forall i :: 0 <= i < |s| ==> s[i] as int < 128
    ensures |r| == |s|
    ensures forall i :: 0 <= i < |s| ==> r[i] == s[i] as int
  {
    seq(|s|, i requires 0 <= i < |s| => s[i] as int)
  }

  /** `make([]byte, n)`: n zero bytes. */
  function Zeros(n: nat): (r: seq<byte>)
    ensures |r| == n
    ensures forall i :: 0 <= i < n ==> r[i] == 0
  {
    seq(n, _ => 0)
  }

  /** `binary.BigEndian.AppendUint16` applied to `uint16(n)`: the cast keeps n modulo 2^16. */
  function BE16(n: int): (r: seq<byte>)
    ensures |r| == 2
    ensures (r[0] as int) * 256 + (r[1] as int) == n % 65536
  {
    var w := n % 65536;
    [w / 256, w % 256]
  }

  /** Reading two big-endian bytes back: BE16 of their value gives the same two bytes. */
  lemma BE16Decode(hi: byte, lo: byte)
    ensures BE16(hi as int * 256 + lo as int) == [hi, lo]
  {
    var w := hi as int * 256 + lo as int;
    assert w % 65536 == w;
    assert w / 256 == hi as int && w % 256 == lo as int;
  }
}
