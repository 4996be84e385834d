/** The part of `github.com/google/uuid` the core uses: a UUID is 16 bytes,
    `String` writes the canonical 36-character form, `Parse` reads it back. */
module Uuids {
  import opened Results
  import opened Base16

  type Uuid = b: seq<byte> | |b| == 16
    witness [0, 0, 0, 0, 0, 0, 0, 0, 0, 0, 0, 0, 0, 0, 0, 0]

  /** Where the canonical form has its dashes. */
  predicate IsDashPosition(i: int)
  {
    i == 8 || i == 13 || i == 18 || i == 23
  }

  /** The canonical form with digits of either case: 36 characters, dashes at
      8, 13, 18 and 23, hex digits everywhere else. */
  predicate IsCanonical(s: string)
  {
    |s| == 36 &&
    forall i :: 0 <= i < 36 ==> if IsDashPosition(i) then s[i] == '-' else IsHexDigit(s[i])
  }

  /** `UUID.String`: `xxxxxxxx-xxxx-xxxx-xxxx-xxxxxxxxxxxx` in lower-case hex. */
  function ToString(u: Uuid): (s: string)
    ensures |s| == 36
    ensures forall i :: 0 <= i < 36 ==> if IsDashPosition(i) then s[i] == '-' else IsLowerHexDigit(s[i])
    ensures IsCanonical(s)
  {
    Encode(u[..4]) + "-" + Encode(u[4..6]) + "-" + Encode(u[6..8]) + "-"
      + Encode(u[8..10]) + "-" + Encode(u[10..])
  }

  /** 32 hex digits of either case as a UUID. */
  function FromDigits(s: string): (r: Option<Uuid>)
    requires |s| == 32
    ensures r.Some? <==> forall i :: 0 <= i < 32 ==> IsHexDigit(s[i])
  {
    DecodeAccepts(s);
    match Decode(s)
    case Some(b) => Some(b)
    case None => None
  }

  /** The 32 digits of a string with the canonical dashes are all hex digits
      exactly when every position other than a dash is. */
  lemma GroupsHex(s: string)
    requires |s| == 36
    ensures var digits := s[..8] + s[9..13] + s[14..18] + s[19..23] + s[24..];
            (forall j :: 0 <= j < 32 ==> IsHexDigit(digits[j])) <==>
            (forall i :: 0 <= i < 36 && !IsDashPosition(i) ==> IsHexDigit(s[i]))
  {
    var digits := s[..8] + s[9..13] + s[14..18] + s[19..23] + s[24..];
    assert forall j :: 0 <= j < 8 ==> digits[j] == s[j];
    assert forall j :: 8 <= j < 12 ==> digits[j] == s[j + 1];
    assert forall j :: 12 <= j < 16 ==> digits[j] == s[j + 2];
    assert forall j :: 16 <= j < 20 ==> digits[j] == s[j + 3];
    assert forall j :: 20 <= j < 32 ==> digits[j] == s[j + 4];
    if forall j :: 0 <= j < 32 ==> IsHexDigit(digits[j]) {
      forall i | 0 <= i < 36 && !IsDashPosition(i) ensures IsHexDigit(s[i]) {
        if i < 8 { assert s[i] == digits[i]; }
        else if i < 13 { assert s[i] == digits[i - 1]; }
        else if i < 18 { assert s[i] == digits[i - 2]; }
        else if i < 23 { assert s[i] == digits[i - 3]; }
        else { assert s[i] == digits[i - 4]; }
      }
    }
  }

  /** `uuid.Parse` for the canonical 36-character form (dashes at 8, 13, 18 and 23,
      hex digits of either case elsewhere) and the bare 32-digit form: it
      succeeds on exactly those two shapes. */
  function Parse(s: string): (r: Option<Uuid>)
    ensures r.Some? <==> IsCanonical(s) || (|s| == 32 && forall i :: 0 <= i < 32 ==> IsHexDigit(s[i]))
  {
    if |s| == 36 then
      if s[8] != '-' || s[13] != '-' || s[18] != '-' || s[23] != '-' then None
      else
        GroupsHex(s);
        FromDigits(s[..8] + s[9..13] + s[14..18] + s[19..23] + s[24..])
    else if |s| == 32 then FromDigits(s)
    else None
  }

  /** `Parse` reads back what `ToString` writes, so `ToString` is injective. */
  lemma ParseToString(u: Uuid)
    ensures Parse(ToString(u)) == Some(u)
  {
    var s := ToString(u);
    var e0, e1, e2, e3, e4 := Encode(u[..4]), Encode(u[4..6]), Encode(u[6..8]), Encode(u[8..10]), Encode(u[10..]);
    assert s == e0 + "-" + e1 + "-" + e2 + "-" + e3 + "-" + e4;
    assert s[..8] == e0 && s[9..13] == e1 && s[14..18] == e2 && s[19..23] == e3 && s[24..] == e4;
    EncodeConcat(u[..4], u[4..6]);
    EncodeConcat(u[..4] + u[4..6], u[6..8]);
    EncodeConcat(u[..4] + u[4..6] + u[6..8], u[8..10]);
    EncodeConcat(u[..4] + u[4..6] + u[6..8] + u[8..10], u[10..]);
    assert u[..4] + u[4..6] + u[6..8] + u[8..10] + u[10..] == u;
    DecodeEncode(u);
  }

  /** The canonical form holds only hex digits and dashes. */
  lemma ToStringAvoids(u: Uuid, c: char)
    requires !IsLowerHexDigit(c) && c != '-'
    ensures c !in ToString(u)
  {
  }
}
