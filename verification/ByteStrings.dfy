/** Byte strings, hex text and big-endian words: the encodings every other module builds on. */
module ByteStrings {
  type Byte = x: int | 0 <= x < 256
  type Bytes = seq<Byte>

  /** A SHA-256 or HMAC-SHA-256 output. */
  type Digest = d: Bytes | |d| == 32 witness seq(32, _ => 0)

  datatype Option<+T> = None | Some(value: T)

  function Pow2(n: nat): nat {
    if n == 0 then 1 else 2 * Pow2(n - 1)
  }

  // ---------------------------------------------------------------- hex text

  predicate IsHexDigit(c: char) {
    '0' <= c <= '9' || 'a' <= c <= 'f' || 'A' <= c <= 'F'
  }

  predicate IsHex(s: string) {
    forall i :: 0 <= i < |s| ==> IsHexDigit(s[i])
  }

  function HexValue(c: char): (v: int)
    requires IsHexDigit(c)
    ensures 0 <= v < 16
  {
    if c <= '9' then c as int - '0' as int
    else if c <= 'F' then c as int - 'A' as int + 10
    else c as int - 'a' as int + 10
  }

  function HexChar(v: int): (c: char)
    requires 0 <= v < 16
    ensures IsHexDigit(c) && HexValue(c) == v && !('A' <= c <= 'F')
  {
    if v < 10 then ('0' as int + v) as char else ('a' as int + v - 10) as char
  }

  /** ASCII part of toLowerCase; no other character lowers to a hex digit. */
  function LowerChar(c: char): char {
    if 'A' <= c <= 'Z' then (c as int + 32) as char else c
  }

  function Lower(s: string): (r: string)
    ensures |r| == |s|
    ensures forall i :: 0 <= i < |s| ==> r[i] == LowerChar(s[i])
  {
    seq(|s|, i requires 0 <= i < |s| => LowerChar(s[i]))
  }

  function StripHexPrefix(s: string): string {
    if |s| >= 2 && s[..2] == "0x" then s[2..] else s
  }

  function DecodeHexPairs(s: string): (b: Bytes)
    requires IsHex(s) && |s| % 2 == 0
    ensures |b| == |s| / 2
  {
    if |s| == 0 then []
    else [16 * HexValue(s[0]) + HexValue(s[1])] + DecodeHexPairs(s[2..])
  }

  /** hexToBytes: an optional "0x", then an even number of hex digits; anything else throws. */
  function HexToBytes(s: string): Option<Bytes> {
    var clean := StripHexPrefix(s);
    if |clean| % 2 != 0 || !IsHex(clean) then None else Some(DecodeHexPairs(clean))
  }

  /** bytesToHex: two lower-case digits a byte. */
  function BytesToHex(b: Bytes): (s: string)
    ensures |s| == 2 * |b| && IsHex(s)
  {
    if |b| == 0 then ""
    else [HexChar(b[0] / 16), HexChar(b[0] % 16)] + BytesToHex(b[1..])
  }

  lemma HexDigitsHaveNoPrefix(s: string)
    requires IsHex(s)
    ensures StripHexPrefix(s) == s
  {
    assert |s| >= 2 ==> s[..2][1] == s[1] && IsHexDigit(s[1]);
  }

  lemma {:induction false} PairsRoundTrip(b: Bytes)
    ensures DecodeHexPairs(BytesToHex(b)) == b
    ensures Lower(BytesToHex(b)) == BytesToHex(b)
  {
    if |b| > 0 {
      PairsRoundTrip(b[1..]);
      var s := BytesToHex(b);
      assert s[2..] == BytesToHex(b[1..]);
      assert Lower(s) == [LowerChar(s[0]), LowerChar(s[1])] + Lower(s[2..]);
    }
  }

  lemma HexRoundTrip(b: Bytes)
    ensures HexToBytes(BytesToHex(b)) == Some(b)
    ensures Lower(BytesToHex(b)) == BytesToHex(b)
  {
    HexDigitsHaveNoPrefix(BytesToHex(b));
    PairsRoundTrip(b);
  }

  lemma LowerKeepsHexDigit(c: char)
    ensures IsHexDigit(LowerChar(c)) <==> IsHexDigit(c)
    ensures IsHexDigit(c) ==> HexValue(LowerChar(c)) == HexValue(c) && LowerChar(c) == HexChar(HexValue(c))
  {
  }

  lemma PairOfNibbles(hi: char, lo: char)
    requires IsHexDigit(hi) && IsHexDigit(lo)
    ensures BytesToHex([16 * HexValue(hi) + HexValue(lo)]) == [LowerChar(hi), LowerChar(lo)]
  {
    var h, l := HexValue(hi), HexValue(lo);
    assert (16 * h + l) / 16 == h && (16 * h + l) % 16 == l;
    LowerKeepsHexDigit(hi);
    LowerKeepsHexDigit(lo);
    assert BytesToHex([]) == "";
  }

  lemma LowerUnfolds(s: string)
    requires |s| >= 2
    ensures Lower(s) == [LowerChar(s[0]), LowerChar(s[1])] + Lower(s[2..])
  {
  }

  lemma LowerIsIdempotent(s: string)
    ensures Lower(Lower(s)) == Lower(s)
  {
  }

  lemma LowerKeepsHex(s: string)
    requires IsHex(s)
    ensures IsHex(Lower(s))
  {
    forall i | 0 <= i < |s| ensures IsHexDigit(Lower(s)[i]) { LowerKeepsHexDigit(s[i]); }
  }

  lemma {:induction false} LowerKeepsPairs(s: string)
    requires IsHex(s) && |s| % 2 == 0
    ensures IsHex(Lower(s)) && DecodeHexPairs(Lower(s)) == DecodeHexPairs(s)
    ensures BytesToHex(DecodeHexPairs(s)) == Lower(s)
  {
    LowerKeepsHex(s);
    if |s| > 0 {
      LowerKeepsPairs(s[2..]);
      LowerKeepsHexDigit(s[0]);
      LowerKeepsHexDigit(s[1]);
      LowerUnfolds(s);
      assert Lower(s)[2..] == Lower(s[2..]);
      PairOfNibbles(s[0], s[1]);
      var b := DecodeHexPairs(s);
      assert b == [b[0]] + DecodeHexPairs(s[2..]);
      assert [b[0]][1..] == [] && b[1..] == DecodeHexPairs(s[2..]);
    }
  }

  /** Case never matters to a decodable spelling. ("0X.." decodes only after lowering, so the converse fails.) */
  lemma DecodeIgnoresCase(s: string)
    requires HexToBytes(s).Some?
    ensures HexToBytes(Lower(s)) == HexToBytes(s)
  {
    var clean := StripHexPrefix(s);
    LowerKeepsPairs(clean);
    HexDigitsHaveNoPrefix(Lower(clean));
    if clean != s {
      assert s[..2][0] == '0' && s[..2][1] == 'x';
      assert Lower(s)[..2] == "0x";
      assert Lower(s)[2..] == Lower(clean);
    }
  }

  /** On spellings without a prefix, the bytes determine the text up to case. */
  lemma DecodeDeterminesText(s: string)
    requires IsHex(s) && |s| % 2 == 0
    ensures HexToBytes(s) == Some(DecodeHexPairs(s))
    ensures BytesToHex(DecodeHexPairs(s)) == Lower(s)
  {
    HexDigitsHaveNoPrefix(s);
    LowerKeepsPairs(s);
  }

  // ---------------------------------------------------- the alphabets, spelled out

  /** Either spelling of a hex digit. */
  lemma HexDigitsAreSpelled(c: char)
    ensures IsHexDigit(c) <==>
      exists v: nat :: v < 16 && (c == "0123456789abcdef"[v] || c == "0123456789ABCDEF"[v])
    ensures forall v: nat :: v < 16 ==>
      && HexChar(v) == "0123456789abcdef"[v]
      && HexValue("0123456789abcdef"[v]) == v && HexValue("0123456789ABCDEF"[v]) == v
  {
    if IsHexDigit(c) {
      var v: nat := HexValue(c);
      assert c == "0123456789abcdef"[v] || c == "0123456789ABCDEF"[v];
    }
  }

  /** Code units 65 to 90 move up by 32, no other moves. */
  lemma LettersAreLowered(text: string)
    ensures |Lower(text)| == |text|
    ensures forall i :: 0 <= i < |text| ==>
      Lower(text)[i] as int == text[i] as int + if 65 <= text[i] as int <= 90 then 32 else 0
  {
  }

  lemma {:induction false} HexCharsAt(b: Bytes, k: nat)
    requires k < |b|
    ensures BytesToHex(b)[2 * k] == HexChar(b[k] / 16) && BytesToHex(b)[2 * k + 1] == HexChar(b[k] % 16)
  {
    if k > 0 {
      HexCharsAt(b[1..], k - 1);
      assert BytesToHex(b)[2..] == BytesToHex(b[1..]);
    }
  }

  lemma HexDigitSpelled(v: nat)
    requires v < 16
    ensures HexChar(v) == "0123456789abcdef"[v]
  {
  }

  /** bytesToHex: byte k is the digits of its sixteens and its ones. */
  lemma HexSpelled(b: Bytes, k: nat)
    requires k < |b|
    ensures BytesToHex(b)[2 * k] == "0123456789abcdef"[b[k] / 16]
    ensures BytesToHex(b)[2 * k + 1] == "0123456789abcdef"[b[k] % 16]
  {
    HexCharsAt(b, k);
    HexDigitSpelled(b[k] / 16);
    HexDigitSpelled(b[k] % 16);
  }

  lemma {:induction false} PairsSpelled(s: string, k: nat)
    requires IsHex(s) && |s| % 2 == 0 && k < |s| / 2
    ensures DecodeHexPairs(s)[k] == 16 * HexValue(s[2 * k]) + HexValue(s[2 * k + 1])
  {
    if k > 0 {
      PairsSpelled(s[2..], k - 1);
    }
  }

  /** hexToBytes: after an optional "0x" every byte is spelled by two digits of either case; all else is refused. */
  lemma HexIsReadByPairs(s: string)
    ensures
      var t := if |s| >= 2 && s[0] == '0' && s[1] == 'x' then s[2..] else s;
      && (HexToBytes(s).Some? <==> |t| % 2 == 0 && IsHex(t))
      && (HexToBytes(s).Some? ==> |HexToBytes(s).value| == |t| / 2)
      && (HexToBytes(s).Some? ==> forall k :: 0 <= k < |t| / 2 ==>
            HexToBytes(s).value[k] == 16 * HexValue(t[2 * k]) + HexValue(t[2 * k + 1]))
  {
    var t := if |s| >= 2 && s[0] == '0' && s[1] == 'x' then s[2..] else s;
    assert StripHexPrefix(s) == t;
    if HexToBytes(s).Some? {
      forall k | 0 <= k < |t| / 2 ensures HexToBytes(s).value[k] == 16 * HexValue(t[2 * k]) + HexValue(t[2 * k + 1]) {
        PairsSpelled(t, k);
      }
    }
  }

  // ------------------------------------------------- 4-byte big-endian words

  function LowByte(n: nat): Byte {
    n % 256
  }

  /** The four bytes `(n >>> 24) & 0xff, .., n & 0xff`, which read n modulo 2^32. */
  function U32(n: nat): (b: Bytes)
    ensures |b| == 4
  {
    [LowByte(n / 0x100_0000), LowByte(n / 0x1_0000), LowByte(n / 0x100), LowByte(n)]
  }

  function FromU32(b: Bytes): nat
    requires |b| >= 4
  {
    b[0] as int * 0x100_0000 + b[1] as int * 0x1_0000 + b[2] as int * 0x100 + b[3] as int
  }

  lemma U32RoundTrip(n: nat, rest: Bytes)
    requires n < 0x1_0000_0000
    ensures FromU32(U32(n) + rest) == n
  {
    var a, b, c := n / 0x100, n / 0x1_0000, n / 0x100_0000;
    assert a == 0x100 * c * 0x100 + (b - c * 0x100) * 0x100 + (a - b * 0x100);
    assert b == a / 0x100 && c == b / 0x100;
  }

  /** Most significant byte first. */
  lemma U32IsBigEndian(n: nat)
    requires n < 0x1_0000_0000
    ensures U32(n)[0] as int * 16777216 + U32(n)[1] as int * 65536 + U32(n)[2] as int * 256 + U32(n)[3] as int == n
  {
    U32RoundTrip(n, []);
    assert U32(n) + [] == U32(n);
  }

  /** `out.set(part, offset)` on a byte buffer. */
  method CopyInto(out: array<Byte>, part: Bytes, offset: nat)
    requires offset + |part| <= out.Length
    modifies out
    ensures out[..] == old(out[..offset]) + part + old(out[offset + |part|..])
  {
    forall i | 0 <= i < |part| {
      out[offset + i] := part[i];
    }
  }
}
