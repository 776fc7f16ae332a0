/** Bytes on the wire and the four-byte lengths in front of stream chunks. */
module Wire {

  type Byte = b: nat | b < 256 witness 0

  const UINT32: nat := 0x1_0000_0000

  /** htonl */
  function Be32(n: nat): (s: seq<Byte>)
    requires n < UINT32
    ensures |s| == 4
  {
    [n / 0x100_0000, n / 0x1_0000 % 256, n / 256 % 256, n % 256]
  }

  /** ntohl */
  function FromBe32(s: seq<Byte>): (n: nat)
    requires |s| == 4
    ensures n < UINT32
  {
    var a: int, b: int, c: int, d: int := s[0], s[1], s[2], s[3];
    a * 0x100_0000 + b * 0x1_0000 + c * 256 + d
  }

  lemma Be32RoundTrip(n: nat)
    requires n < UINT32
    ensures FromBe32(Be32(n)) == n
  {
    var a := n / 256;
    var b := a / 256;
    assert n == a * 256 + n % 256 && a == b * 256 + a % 256;
    assert n / 0x1_0000 == b && n / 0x100_0000 == b / 256;
  }

  /** The most significant byte comes first. */
  lemma BigEndian(a: Byte, b: Byte, c: Byte, d: Byte)
    ensures FromBe32([a, b, c, d]) == ((a * 256 + b) * 256 + c) * 256 + d
    ensures Be32(FromBe32([a, b, c, d])) == [a, b, c, d]
  {
    var n := FromBe32([a, b, c, d]);
    assert n / 256 == (a * 256 + b) * 256 + c && n % 256 == d;
    assert n / 0x1_0000 == a * 256 + b && n / 0x100_0000 == a;
  }

  function Concat(parts: seq<seq<Byte>>): seq<Byte> {
    if parts == [] then [] else parts[0] + Concat(parts[1..])
  }

  lemma {:induction false} ConcatAppend(parts: seq<seq<Byte>>, last: seq<Byte>)
    ensures Concat(parts + [last]) == Concat(parts) + last
  {
    if parts == [] {
      assert parts + [last] == [last] && [last][1..] == [];
      assert Concat([last]) == last + Concat([last][1..]);
    } else {
      ConcatAppend(parts[1..], last);
      assert (parts + [last])[1..] == parts[1..] + [last];
    }
  }

  /** A chunk: its length and its bytes. */
  function Frame(p: seq<Byte>): seq<Byte>
    requires |p| < UINT32
  {
    Be32(|p|) + p
  }

  function Ascii(s: string): (r: seq<Byte>)
    ensures |r| == |s|
  {
    seq(|s|, i requires 0 <= i < |s| => if s[i] as int < 256 then s[i] as int else 0)
  }
}
