/** Bytes as numbers, and two-byte big-endian lengths. */
module Octets {

  type Byte = x: int | 0 <= x < 256

  const U64: nat := 0x1_0000_0000_0000_0000

  function ZeroBytes(n: nat): (s: seq<Byte>)
    ensures |s| == n
  {
    seq(n, _ => 0)
  }

  /** `(n as u16).to_be_bytes()`. */
  function ToU16(n: nat): seq<Byte> {
    [n / 256 % 256, n % 256]
  }

  /** `u16::from_be_bytes`. */
  function FromU16(s: seq<Byte>): nat
    requires |s| == 2
  {
    (s[0] as int) * 256 + s[1] as int
  }

  lemma {:induction false} U16RoundTrip(n: nat)
    ensures FromU16(ToU16(n)) == n <==> n < 0x1_0000
  {
  }

  lemma {:induction false} U16Wraps(n: nat)
    ensures |ToU16(n)| == 2 && FromU16(ToU16(n)) == n % 0x1_0000
  {
    assert n / 256 % 256 * 256 + n % 256 == n % 0x1_0000;
  }

  lemma {:induction false} U16Bytes(s: seq<Byte>)
    requires |s| == 2
    ensures FromU16(s) < 0x1_0000 && ToU16(FromU16(s)) == s
  {
  }

  /** The two bytes of a length are its quotient and remainder by 256, in this order. */
  lemma {:induction false} U16BigEndian(n: nat)
    requires n < 0x1_0000
    ensures |ToU16(n)| == 2 && (ToU16(n)[0] as int) * 256 + ToU16(n)[1] as int == n
  {
  }

  lemma {:induction false} U16Value(s: seq<Byte>)
    requires |s| == 2
    ensures FromU16(s) == (s[0] as int) * 256 + s[1] as int
  {
  }

  /** So the bytes of lengths are ordered as the lengths are. */
  lemma {:induction false} U16Order(m: nat, n: nat)
    requires m < n < 0x1_0000
    ensures var s, t := ToU16(m), ToU16(n);
            |s| == 2 == |t| && (s[0] < t[0] || (s[0] == t[0] && s[1] < t[1]))
  {
    U16BigEndian(m);
    U16BigEndian(n);
  }
}
