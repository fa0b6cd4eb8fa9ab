/** Base16 (section 8 of RFC 4648) as Python's `binascii` implements it:
    `hexlify` writes two lower-case digits per byte, high nibble first;
    `unhexlify` accepts digits of either case and fails on an odd length or a
    character that is not a hexadecimal digit. */
module Hex {

  newtype byte = x: int | 0 <= x < 256

  datatype Option<+T> = None | Some(value: T)

  predicate IsHexDigit(c: char)
  {
    '0' <= c <= '9' || 'a' <= c <= 'f' || 'A' <= c <= 'F'
  }

  predicate IsLowerHexDigit(c: char)
  {
    '0' <= c <= '9' || 'a' <= c <= 'f'
  }

  /** What `unhexlify` accepts: an even number of hexadecimal digits. */
  predicate IsHex(s: string)
  {
    |s| % 2 == 0 && forall i :: 0 <= i < |s| ==> IsHexDigit(s[i])
  }

  /** What `hexlify` produces: an even number of lower-case hexadecimal digits. */
  predicate IsLowerHex(s: string)
  {
    |s| % 2 == 0 && forall i :: 0 <= i < |s| ==> IsLowerHexDigit(s[i])
  }

  function DigitValue(c: char): (v: nat)
    requires IsHexDigit(c)
    ensures v < 16
  {
    if '0' <= c <= '9' then c as nat - '0' as nat
    else if 'a' <= c <= 'f' then c as nat - 'a' as nat + 10
    else c as nat - 'A' as nat + 10
  }

  function LowerDigit(v: nat): (c: char)
    requires v < 16
    ensures IsLowerHexDigit(c) && DigitValue(c) == v
  {
    if v < 10 then ('0' as nat + v) as char else ('a' as nat + v - 10) as char
  }

  /** A lower-case digit is the one `LowerDigit` writes for its value. */
  lemma LowerDigitOfValue(c: char)
    requires IsLowerHexDigit(c)
    ensures LowerDigit(DigitValue(c)) == c
  {
  }

  /** `binascii.hexlify` */
  function Hexlify(bs: seq<byte>): (s: string)
    ensures |s| == 2 * |bs| && IsLowerHex(s)
  {
    if bs == [] then ""
    else [LowerDigit(bs[0] as nat / 16), LowerDigit(bs[0] as nat % 16)] + Hexlify(bs[1..])
  }

  /** `binascii.unhexlify`; `None` is its `binascii.Error`. */
  function Unhexlify(s: string): (res: Option<seq<byte>>)
    ensures res.Some? <==> IsHex(s)
    ensures res.Some? ==> |res.value| == |s| / 2
  {
    if |s| == 0 then Some([])
    else if |s| == 1 || !IsHexDigit(s[0]) || !IsHexDigit(s[1]) then None
    else
      match Unhexlify(s[2..])
      case None => None
      case Some(rest) => Some([(DigitValue(s[0]) * 16 + DigitValue(s[1])) as byte] + rest)
  }

  /** Digits `2i` and `2i+1` of the encoding spell byte `i`, high nibble first. */
  lemma {:induction false} HexlifyAt(bs: seq<byte>, i: int)
    requires 0 <= i < |bs|
    ensures Hexlify(bs)[2 * i] == LowerDigit(bs[i] as nat / 16)
    ensures Hexlify(bs)[2 * i + 1] == LowerDigit(bs[i] as nat % 16)
  {
    if i > 0 {
      HexlifyAt(bs[1..], i - 1);
    }
  }

  /** Byte `i` of the decoding is read from digits `2i` and `2i+1`. */
  lemma {:induction false} UnhexlifyAt(s: string, i: int)
    requires IsHex(s) && 0 <= i < |s| / 2
    ensures Unhexlify(s).value[i] as nat == DigitValue(s[2 * i]) * 16 + DigitValue(s[2 * i + 1])
  {
    if i > 0 {
      assert IsHex(s[2..]) by {
        forall k | 0 <= k < |s[2..]| ensures IsHexDigit(s[2..][k]) { assert s[2..][k] == s[k + 2]; }
      }
      UnhexlifyAt(s[2..], i - 1);
    }
  }

  /** Decoding an encoding gives the bytes back. */
  lemma {:induction false} UnhexlifyHexlify(bs: seq<byte>)
    ensures Unhexlify(Hexlify(bs)) == Some(bs)
  {
    if bs != [] {
      var s := Hexlify(bs);
      assert s[2..] == Hexlify(bs[1..]);
      UnhexlifyHexlify(bs[1..]);
      var b := bs[0] as nat;
      assert DigitValue(s[0]) * 16 + DigitValue(s[1]) == b;
      assert bs == [bs[0]] + bs[1..];
    }
  }

  /** Encoding the decoding of `hexlify` output gives the string back; upper-case
      digits are the only thing a decode-and-encode pass changes. */
  lemma {:induction false} HexlifyUnhexlify(s: string)
    requires IsLowerHex(s)
    ensures Unhexlify(s).Some? && Hexlify(Unhexlify(s).value) == s
  {
    if |s| > 0 {
      assert IsLowerHex(s[2..]) by {
        forall k | 0 <= k < |s[2..]| ensures IsLowerHexDigit(s[2..][k]) { assert s[2..][k] == s[k + 2]; }
      }
      HexlifyUnhexlify(s[2..]);
      var bs := Unhexlify(s).value;
      var v := DigitValue(s[0]) * 16 + DigitValue(s[1]);
      assert bs[0] as nat == v && bs[1..] == Unhexlify(s[2..]).value;
      assert v / 16 == DigitValue(s[0]) && v % 16 == DigitValue(s[1]);
      LowerDigitOfValue(s[0]);
      LowerDigitOfValue(s[1]);
      assert s == s[..2] + s[2..];
    }
  }

  /** `unhexlify` fails on an odd length, whatever the characters. */
  lemma UnhexlifyRejectsOddLength(s: string)
    requires |s| % 2 == 1
    ensures Unhexlify(s) == None
  {
  }

  /** `unhexlify` fails on a string holding a non-digit, whatever its length. */
  lemma UnhexlifyRejectsNonDigit(s: string, i: int)
    requires 0 <= i < |s| && !IsHexDigit(s[i])
    ensures Unhexlify(s) == None
  {
  }
}
