/**
  The service's two hexadecimal helpers: `toHex`, which renders a command for
  the log, and `hexToByteArray`, which the service declares but never calls.
  Digits are the ASCII ones.
 */
module Hex {
  import opened Bytes

  /** A digit of `"%X"`: 0-9, then upper-case A-F. */
  predicate IsUpperDigit(c: char)
  {
    '0' <= c <= '9' || 'A' <= c <= 'F'
  }

  /** The upper-case digit for the value `k`. */
  function UpperDigit(k: nat): (c: char)
    requires k < 16
    ensures IsUpperDigit(c)
  {
    if k < 10 then ('0' as int + k) as char else ('A' as int + k - 10) as char
  }

  /** `"%02X".format(b)`: the unsigned value as two upper-case digits. */
  function ByteToHex(b: byte): (s: string)
    ensures |s| == 2 && IsUpperDigit(s[0]) && IsUpperDigit(s[1])
  {
    [UpperDigit(b / 16), UpperDigit(b % 16)]
  }

  /** `toHex`: every byte as two digits, joined without a separator. */
  function ToHex(bytes: seq<byte>): (s: string)
    ensures |s| == 2 * |bytes|
    ensures forall i :: 0 <= i < |s| ==> IsUpperDigit(s[i])
  {
    if bytes == [] then "" else ByteToHex(bytes[0]) + ToHex(bytes[1..])
  }

  /** The value of a hexadecimal digit of either case, or None. */
  function DigitValue(c: char): (d: Option<nat>)
    ensures d.Some? ==> d.value < 16
  {
    if '0' <= c <= '9' then Some(c as int - '0' as int)
    else if 'a' <= c <= 'f' then Some(c as int - 'a' as int + 10)
    else if 'A' <= c <= 'F' then Some(c as int - 'A' as int + 10)
    else None
  }

  /** `substring(i, i + 2).toInt(16).toByte()` on the two characters `c0 c1`.
      Kotlin's `toInt` takes a leading `-` or `+` (any first character below
      `'0'` other than those is an error) and then needs digits; `toByte`
      keeps the low eight bits, so `-F` gives F1. None is the
      NumberFormatException. */
  function ParsePair(c0: char, c1: char): Option<byte>
  {
    if c0 < '0' then
      if (c0 == '-' || c0 == '+') && DigitValue(c1).Some? then
        var v := DigitValue(c1).value;
        Some(if c0 == '-' then (256 - v) % 256 else v)
      else None
    else if DigitValue(c0).Some? && DigitValue(c1).Some? then
      Some(16 * DigitValue(c0).value + DigitValue(c1).value)
    else None
  }

  /** `hexToByteArray` as a function: pairs of characters from the start; a
      trailing single character is a `substring` past the end, an error. */
  function ParseHex(s: string): Option<seq<byte>>
  {
    if |s| == 0 then Some([])
    else if |s| == 1 then None
    else
      var b := ParsePair(s[0], s[1]);
      var rest := ParseHex(s[2..]);
      if b.None? || rest.None? then None else Some([b.value] + rest.value)
  }

  /** All pairs of `s` parse. */
  predicate AllPairsParse(s: string)
    requires |s| % 2 == 0
  {
    forall j :: 0 <= j < |s| / 2 ==> ParsePair(s[2 * j], s[2 * j + 1]).Some?
  }

  /** `ParseHex` succeeds exactly on strings of even length whose every pair
      parses, and byte `j` of the result is the value of pair `j`. */
  lemma {:induction false} ParseHexPairwise(s: string)
    ensures ParseHex(s).Some? <==> |s| % 2 == 0 && AllPairsParse(s)
    ensures ParseHex(s).Some? ==>
              |ParseHex(s).value| == |s| / 2 &&
              forall j :: 0 <= j < |s| / 2 ==>
                Some(ParseHex(s).value[j]) == ParsePair(s[2 * j], s[2 * j + 1])
  {
    if |s| >= 2 {
      var t := s[2..];
      ParseHexPairwise(t);
      forall j | 0 <= j < |t| / 2
        ensures t[2 * j] == s[2 * (j + 1)] && t[2 * j + 1] == s[2 * (j + 1) + 1]
      {
      }
      if |s| % 2 == 0 && AllPairsParse(s) {
        assert ParsePair(s[0], s[1]).Some? by {
          assert ParsePair(s[2 * 0], s[2 * 0 + 1]).Some?;
        }
        assert AllPairsParse(t) by {
          forall j | 0 <= j < |t| / 2 ensures ParsePair(t[2 * j], t[2 * j + 1]).Some? {
            assert ParsePair(s[2 * (j + 1)], s[2 * (j + 1) + 1]).Some?;
          }
        }
      }
      if ParseHex(s).Some? {
        var r := ParseHex(s).value;
        forall j | 0 <= j < |s| / 2
          ensures Some(r[j]) == ParsePair(s[2 * j], s[2 * j + 1])
        {
          if j > 0 {
            assert r[j] == ParseHex(t).value[j - 1];
          }
        }
      }
    }
  }

  /** Every upper-case digit reads back as its own value. */
  lemma DigitValueOfUpper(k: nat)
    requires k < 16
    ensures DigitValue(UpperDigit(k)) == Some(k)
  {
  }

  /** The two digits of one byte parse back to that byte. */
  lemma PairRoundTrip(b: byte)
    ensures ParsePair(ByteToHex(b)[0], ByteToHex(b)[1]) == Some(b)
  {
    DigitValueOfUpper(b / 16);
    DigitValueOfUpper(b % 16);
  }

  /** `toHex` then `hexToByteArray` gives back the bytes. */
  lemma {:induction false} HexRoundTrip(bytes: seq<byte>)
    ensures ParseHex(ToHex(bytes)) == Some(bytes)
  {
    if bytes != [] {
      var s := ToHex(bytes);
      var h := ByteToHex(bytes[0]);
      assert s == h + ToHex(bytes[1..]);
      assert s[0] == h[0] && s[1] == h[1] && s[2..] == ToHex(bytes[1..]);
      PairRoundTrip(bytes[0]);
      HexRoundTrip(bytes[1..]);
      assert [bytes[0]] + bytes[1..] == bytes;
    }
  }

  /** `hexToByteArray`: allocates `length / 2` bytes, then parses the pairs
      at `i = 0, 2, 4, ...`; None is the exception that ends the call. */
  method HexToByteArray(s: string) returns (r: Option<array<byte>>)
    ensures r.Some? <==> ParseHex(s).Some?
    ensures r.Some? ==> r.value[..] == ParseHex(s).value
  {
    ParseHexPairwise(s);
    var result := new byte[|s| / 2];
    var i := 0;
    while i < |s|
      invariant i % 2 == 0 && 0 <= i <= |s|
      invariant forall j :: 0 <= j < i / 2 ==> Some(result[j]) == ParsePair(s[2 * j], s[2 * j + 1])
    {
      if i + 2 > |s| {
        return None;
      }
      var b := ParsePair(s[i], s[i + 1]);
      if b.None? {
        assert ParseHex(s).None? by {
          if |s| % 2 == 0 {
            assert !ParsePair(s[2 * (i / 2)], s[2 * (i / 2) + 1]).Some?;
          }
        }
        return None;
      }
      result[i / 2] := b.value;
      i := i + 2;
    }
    assert |s| % 2 == 0;
    assert AllPairsParse(s);
    assert result[..] == ParseHex(s).value;
    return Some(result);
  }
}
