/**
 * The text form of a digest as `hash_hmac` returns it by default: every byte
 * as two lower-case hexadecimal digits, high nibble first. `FromHex` reads it
 * back, so distinct digests always have distinct text forms, and a signature
 * written with upper-case letters never equals one.
 */
module Hex {
  import opened Wrappers

  newtype byte = x: int | 0 <= x < 256

  type Nibble = n: int | 0 <= n < 16

  /** The sixteen characters `hash_hmac` writes: '0'-'9' and 'a'-'f'. */
  predicate IsLowerHex(c: char) {
    '0' <= c <= '9' || 'a' <= c <= 'f'
  }

  function NibbleChar(n: Nibble): (c: char)
    ensures IsLowerHex(c)
  {
    if n < 10 then ('0' as int + n) as char else ('a' as int + n - 10) as char
  }

  function NibbleValue(c: char): (v: Option<Nibble>)
    ensures v.Some? <==> IsLowerHex(c)
  {
    if '0' <= c <= '9' then Some(c as int - '0' as int)
    else if 'a' <= c <= 'f' then Some(c as int - 'a' as int + 10)
    else None
  }

  /** Lower-case hexadecimal text of `b`, two characters per byte. */
  function ToHex(b: seq<byte>): (s: string)
    ensures |s| == 2 * |b|
    ensures forall i :: 0 <= i < |s| ==> IsLowerHex(s[i])
  {
    if |b| == 0 then []
    else [NibbleChar(b[0] as int / 16), NibbleChar(b[0] as int % 16)] + ToHex(b[1..])
  }

  /** Reads lower-case hexadecimal text back into bytes; odd length or any other character is `None`. */
  function FromHex(s: string): Option<seq<byte>>
    decreases |s|
  {
    if |s| == 0 then Some([])
    else if |s| == 1 then None
    else match (NibbleValue(s[0]), NibbleValue(s[1]), FromHex(s[2..]))
      case (Some(hi), Some(lo), Some(rest)) => Some([(hi as int * 16 + lo as int) as byte] + rest)
      case _ => None
  }

  lemma {:induction false} HexRoundTrip(b: seq<byte>)
    ensures FromHex(ToHex(b)) == Some(b)
  {
    if |b| > 0 {
      var s := ToHex(b);
      assert s[2..] == ToHex(b[1..]);
      HexRoundTrip(b[1..]);
      assert [b[0]] + b[1..] == b;
    }
  }

  /** Distinct digests have distinct hexadecimal text. */
  lemma ToHexInjective(a: seq<byte>, b: seq<byte>)
    ensures ToHex(a) == ToHex(b) ==> a == b
  {
    HexRoundTrip(a);
    HexRoundTrip(b);
  }
}
