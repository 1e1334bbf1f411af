/**
 * The textual form of a 32-byte hash (`B256`). Parsing a hash is done by a
 * library outside this model; this module gives one concrete reading of it,
 * used only where a lemma says so: an optional lower-case `0x` prefix
 * followed by exactly 64 hexadecimal digits of either case, two digits per
 * byte, most significant nibble first. The display form is `0x` followed by
 * 64 lower-case hexadecimal digits.
 */
module B256Hex {
  import opened Wrappers
  import opened RustStr
  import opened RustInt

  /** Exactly 32 bytes. */
  type Bytes32 = b: seq<uint8> | |b| == 32 witness seq(32, i => 0)

  /** A 32-byte hash. */
  datatype B256 = B256(bytes: Bytes32)

  predicate IsHexDigit(c: char) {
    '0' <= c <= '9' || 'a' <= c <= 'f' || 'A' <= c <= 'F'
  }

  predicate AllHex(s: string) {
    forall i | 0 <= i < |s| :: IsHexDigit(s[i])
  }

  function HexValue(c: char): (v: nat)
    requires IsHexDigit(c)
    ensures v < 16
  {
    if '0' <= c <= '9' then c as int - '0' as int
    else if 'a' <= c <= 'f' then c as int - 'a' as int + 10
    else c as int - 'A' as int + 10
  }

  /** The lower-case hexadecimal digit for a nibble. */
  function HexChar(v: nat): (c: char)
    requires v < 16
    ensures IsHexDigit(c) && HexValue(c) == v
  {
    if v < 10 then ('0' as int + v) as char else ('a' as int + v - 10) as char
  }

  /** The lower-case form of a hexadecimal digit. */
  function LowerHex(c: char): (l: char)
    requires IsHexDigit(c)
    ensures IsHexDigit(l) && HexValue(l) == HexValue(c) && !('A' <= l <= 'F')
  {
    if 'A' <= c <= 'F' then (c as int - 'A' as int + 'a' as int) as char else c
  }

  /** A hexadecimal string with its letters in lower case. */
  function LowerHexString(h: string): (l: string)
    requires AllHex(h)
    ensures |l| == |h|
  {
    if h == [] then [] else [LowerHex(h[0])] + LowerHexString(h[1..])
  }

  /** Decodes pairs of hexadecimal digits into bytes. */
  function DecodeHex(h: string): (b: seq<uint8>)
    requires |h| % 2 == 0 && AllHex(h)
    ensures |b| == |h| / 2
  {
    if h == [] then []
    else [(HexValue(h[0]) * 16 + HexValue(h[1])) as uint8] + DecodeHex(h[2..])
  }

  /** Encodes bytes as pairs of lower-case hexadecimal digits. */
  function EncodeHex(b: seq<uint8>): (h: string)
    ensures |h| == 2 * |b| && AllHex(h)
  {
    if b == [] then []
    else [HexChar(b[0] as nat / 16), HexChar(b[0] as nat % 16)] + EncodeHex(b[1..])
  }

  /** The hexadecimal digits of a hash literal, after its optional `0x`. */
  function HexBody(s: string): string {
    if StartsWith(s, "0x") then s[2..] else s
  }

  /** `B256::from_str`, under the reading stated for this module. */
  function B256FromStr(s: string): (r: Option<B256>)
    ensures r.Some? <==> |HexBody(s)| == 64 && AllHex(HexBody(s))
    ensures r.Some? ==> EncodeHex(r.value.bytes) == LowerHexString(HexBody(s))
  {
    var h := HexBody(s);
    if |h| == 64 && AllHex(h) then
      EncodeDecodeHex(h);
      Some(B256(DecodeHex(h)))
    else
      None
  }

  /** The display form of a hash. */
  function B256ToString(hash: B256): string {
    "0x" + EncodeHex(hash.bytes)
  }

  /** Decoding undoes encoding. */
  lemma {:induction false} DecodeEncodeHex(b: seq<uint8>)
    ensures DecodeHex(EncodeHex(b)) == b
  {
    if b != [] {
      var h := EncodeHex(b);
      assert h[2..] == EncodeHex(b[1..]);
      DecodeEncodeHex(b[1..]);
    }
  }

  /** The digit a nibble encodes to is the lower-case form of the digit it was decoded from. */
  lemma HexCharOfValue(c: char)
    requires IsHexDigit(c)
    ensures HexChar(HexValue(c)) == LowerHex(c)
  {
  }

  /** Two digits decode to a byte that encodes to the same digits, in lower case. */
  lemma PairEncodes(c0: char, c1: char)
    requires IsHexDigit(c0) && IsHexDigit(c1)
    ensures var x := (HexValue(c0) * 16 + HexValue(c1)) as uint8;
      [HexChar(x as nat / 16), HexChar(x as nat % 16)] == [LowerHex(c0), LowerHex(c1)]
  {
    var hi, lo := HexValue(c0), HexValue(c1);
    assert (hi * 16 + lo) / 16 == hi && (hi * 16 + lo) % 16 == lo;
    HexCharOfValue(c0);
    HexCharOfValue(c1);
  }

  /** Encoding a byte followed by more bytes. */
  lemma EncodeHexCons(x: uint8, rest: seq<uint8>)
    ensures EncodeHex([x] + rest) == [HexChar(x as nat / 16), HexChar(x as nat % 16)] + EncodeHex(rest)
  {
    assert ([x] + rest)[1..] == rest;
  }

  /** Lower-casing the first two digits, then the rest. */
  lemma LowerHexStringPair(h: string)
    requires AllHex(h) && |h| >= 2
    ensures LowerHexString(h) == [LowerHex(h[0]), LowerHex(h[1])] + LowerHexString(h[2..])
  {
    assert h[1..][1..] == h[2..];
  }

  /** Encoding what was decoded gives back the digits, in lower case. */
  lemma {:induction false} EncodeDecodeHex(h: string)
    requires |h| % 2 == 0 && AllHex(h)
    ensures EncodeHex(DecodeHex(h)) == LowerHexString(h)
  {
    if h != [] {
      var x := (HexValue(h[0]) * 16 + HexValue(h[1])) as uint8;
      var rest := DecodeHex(h[2..]);
      assert DecodeHex(h) == [x] + rest;
      EncodeHexCons(x, rest);
      PairEncodes(h[0], h[1]);
      EncodeDecodeHex(h[2..]);
      LowerHexStringPair(h);
    }
  }

  /** A hash's display form parses back to the same hash. */
  lemma DisplayThenParse(hash: B256)
    ensures B256FromStr(B256ToString(hash)) == Some(hash)
  {
    var s := B256ToString(hash);
    assert StartsWith(s, "0x");
    assert HexBody(s) == EncodeHex(hash.bytes);
    DecodeEncodeHex(hash.bytes);
  }
}
