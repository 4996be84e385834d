/** Base16 ("hex") encoding of bytes, section 8 of RFC 4648, as Go's
    `encoding/hex` does it: `EncodeToString` writes lower-case digits,
    `DecodeString` accepts either case and refuses an odd length or a
    non-digit. */
module Base16 {
  import opened Results

  type byte = b: int | 0 <= b < 256

  /** The lower-case digit for a value below 16. */
  function HexDigit(d: int): (c: char)
    requires 0 <= d < 16
  {
    if d < 10 then ('0' as int + d) as char else ('a' as int + d - 10) as char
  }

  predicate IsLowerHexDigit(c: char)
  {
    '0' <= c <= '9' || 'a' <= c <= 'f'
  }

  /** A digit of either case, the characters `DecodeString` accepts. */
  predicate IsHexDigit(c: char)
  {
    '0' <= c <= '9' || 'a' <= c <= 'f' || 'A' <= c <= 'F'
  }

  /** The value of one digit of either case. */
  function DigitValue(c: char): (r: Option<int>)
    ensures r.Some? ==> 0 <= r.value < 16
    ensures r.Some? <==> IsHexDigit(c)
  {
    if '0' <= c <= '9' then Some(c as int - '0' as int)
    else if 'a' <= c <= 'f' then Some(c as int - 'a' as int + 10)
    else if 'A' <= c <= 'F' then Some(c as int - 'A' as int + 10)
    else None
  }

  /** A digit reads back as the value it was written for. */
  lemma DigitRoundTrip(d: int)
    requires 0 <= d < 16
    ensures IsLowerHexDigit(HexDigit(d)) && DigitValue(HexDigit(d)) == Some(d)
  {
  }

  /** `hex.EncodeToString`: two lower-case digits per byte, high nibble first. */
  function Encode(data: seq<byte>): (s: string)
    ensures |s| == 2 * |data|
    ensures forall i :: 0 <= i < |s| ==> IsLowerHexDigit(s[i])
  {
    if data == [] then ""
    else [HexDigit(data[0] / 16), HexDigit(data[0] % 16)] + Encode(data[1..])
  }

  /** `hex.DecodeString`; `None` for an odd length or a character that is not a
      hex digit. */
  function Decode(s: string): (r: Option<seq<byte>>)
    ensures r.Some? ==> |s| == 2 * |r.value|
  {
    if s == [] then Some([])
    else if |s| == 1 then None
    else
      match (DigitValue(s[0]), DigitValue(s[1]), Decode(s[2..]))
      case (Some(hi), Some(lo), Some(rest)) => Some([hi * 16 + lo] + rest)
      case _ => None
  }

  /** `DecodeString` succeeds exactly on the even-length strings of digits of
      either case. */
  lemma {:induction false} DecodeAccepts(s: string)
    ensures Decode(s).Some? <==> |s| % 2 == 0 && forall i :: 0 <= i < |s| ==> IsHexDigit(s[i])
    decreases |s|
  {
    if |s| >= 2 {
      DecodeAccepts(s[2..]);
      assert forall i :: 2 <= i < |s| ==> s[i] == s[2..][i - 2];
    }
  }

  /** Decoding inverts encoding. */
  lemma {:induction false} DecodeEncode(data: seq<byte>)
    ensures Decode(Encode(data)) == Some(data)
  {
    if data != [] {
      var s := Encode(data);
      DigitRoundTrip(data[0] / 16);
      DigitRoundTrip(data[0] % 16);
      assert s[2..] == Encode(data[1..]);
      DecodeEncode(data[1..]);
      assert [data[0]] + data[1..] == data;
    }
  }

  /** Encoding distributes over concatenation. */
  lemma {:induction false} EncodeConcat(a: seq<byte>, b: seq<byte>)
    ensures Encode(a + b) == Encode(a) + Encode(b)
  {
    if a != [] {
      assert (a + b)[0] == a[0];
      assert (a + b)[1..] == a[1..] + b;
      EncodeConcat(a[1..], b);
    } else {
      assert a + b == b;
    }
  }

  /** An encoding contains only hex digits, so neither of the given characters. */
  lemma EncodeAvoids(data: seq<byte>, c: char)
    requires !IsLowerHexDigit(c)
    ensures c !in Encode(data)
  {
  }
}
