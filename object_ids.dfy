/**
  MongoDB object identifiers (`bson::oid::ObjectId`): twelve bytes, shown as
  24 lower-case hexadecimal digits by `to_hex` and read back by
  `ObjectId::with_string`, which decodes the hex (either case) with
  `hex::decode` and refuses anything that is not exactly twelve bytes.
 */
module ObjectIds {
  import opened Wrappers

  newtype byte = x: int | 0 <= x < 256

  type ObjectId = b: seq<byte> | |b| == 12 witness [0, 0, 0, 0, 0, 0, 0, 0, 0, 0, 0, 0]

  const HexDigits: string := "0123456789abcdef"

  predicate IsHexChar(c: char) {
    '0' <= c <= '9' || 'a' <= c <= 'f' || 'A' <= c <= 'F'
  }

  function HexValue(c: char): (v: int)
    requires IsHexChar(c)
    ensures 0 <= v < 16
  {
    if '0' <= c <= '9' then c as int - '0' as int
    else if 'a' <= c <= 'f' then c as int - 'a' as int + 10
    else c as int - 'A' as int + 10
  }

  /** The lower-case digit for a nibble reads back as that nibble. */
  lemma HexDigitRoundTrip(n: int)
    requires 0 <= n < 16
    ensures IsHexChar(HexDigits[n]) && HexValue(HexDigits[n]) == n
  {
  }

  /** `hex::encode`: two lower-case digits per byte, high nibble first. */
  function ToHex(b: seq<byte>): (r: string)
    ensures |r| == 2 * |b|
    ensures forall i :: 0 <= i < |r| ==> IsHexChar(r[i])
  {
    if b == [] then []
    else
      HexDigitRoundTrip(b[0] as int / 16);
      HexDigitRoundTrip(b[0] as int % 16);
      [HexDigits[b[0] as int / 16], HexDigits[b[0] as int % 16]] + ToHex(b[1..])
  }

  /** `hex::decode`: fails on odd length or a non-hex character. */
  function Decode(s: string): (r: Option<seq<byte>>)
    decreases |s|
  {
    if |s| == 0 then Some([])
    else if |s| == 1 || !IsHexChar(s[0]) || !IsHexChar(s[1]) then None
    else match Decode(s[2..])
      case None => None
      case Some(rest) => Some([(HexValue(s[0]) * 16 + HexValue(s[1])) as byte] + rest)
  }

  /** `ObjectId::with_string`: `None` where the original returns an error. */
  function Parse(s: string): (r: Option<ObjectId>)
    ensures r.Some? ==> |s| == 24 && Decode(s) == Some(r.value)
  {
    DecodeAccepts(s);
    match Decode(s)
    case Some(b) => if |b| == 12 then Some(b) else None
    case None => None
  }

  lemma {:induction false} DecodeToHex(b: seq<byte>)
    ensures Decode(ToHex(b)) == Some(b)
  {
    if b != [] {
      var s := ToHex(b);
      HexDigitRoundTrip(b[0] as int / 16);
      HexDigitRoundTrip(b[0] as int % 16);
      assert s[2..] == ToHex(b[1..]);
      DecodeToHex(b[1..]);
      assert b == [b[0]] + b[1..];
    }
  }

  /** The hex form of an identifier parses back to that identifier. */
  lemma ParseToHex(id: ObjectId)
    ensures Parse(ToHex(id)) == Some(id)
  {
    DecodeToHex(id);
  }

  lemma {:induction false} DecodeAccepts(s: string)
    ensures Decode(s).Some? <==> |s| % 2 == 0 && forall i :: 0 <= i < |s| ==> IsHexChar(s[i])
    ensures Decode(s).Some? ==> |Decode(s).value| == |s| / 2
    decreases |s|
  {
    if |s| >= 2 {
      DecodeAccepts(s[2..]);
      assert forall i :: 2 <= i < |s| ==> s[i] == s[2..][i - 2];
    }
  }

  /** Exactly the strings of 24 hex digits (of either case) are identifiers. */
  lemma ParseAccepts(s: string)
    ensures Parse(s).Some? <==> |s| == 24 && forall i :: 0 <= i < |s| ==> IsHexChar(s[i])
  {
    DecodeAccepts(s);
  }
}
