/**
  Go's `encoding/hex`: base16 (section 8 of RFC 4648) with the lowercase
  alphabet `0123456789abcdef`. `EncodeToString` is what implant.go:224 calls;
  `DecodeString` is its inverse, used here to state the round trip that the
  generated resources rely on.
*/
module Hex {
  import opened Wrappers

  /** An octet, Go's `byte`. */
  type byte = b: int | 0 <= b < 256

  /** A value of one hex digit. */
  type nibble = n: int | 0 <= n < 16

  /** The alphabet `EncodeToString` writes, indexed by digit value. */
  const Alphabet: string := "0123456789abcdef"

  predicate IsLowerHexDigit(c: char) {
    '0' <= c <= '9' || 'a' <= c <= 'f'
  }

  /** The character for digit value `n`: an entry of Go's `hextable`. */
  function HexChar(n: nibble): (c: char)
    ensures IsLowerHexDigit(c)
    ensures c == Alphabet[n]
  {
    if n < 10 then ('0' as int + n) as char else ('a' as int + n - 10) as char
  }

  /** Go's `fromHexChar`: digit characters in either case, nothing else. */
  function DigitValue(c: char): (v: Option<nibble>)
    ensures v.Some? <==> (IsLowerHexDigit(c) || 'A' <= c <= 'F')
  {
    if '0' <= c <= '9' then Some(c as int - '0' as int)
    else if 'a' <= c <= 'f' then Some(c as int - 'a' as int + 10)
    else if 'A' <= c <= 'F' then Some(c as int - 'A' as int + 10)
    else None
  }

  lemma DigitValueOfHexChar(n: nibble)
    ensures DigitValue(HexChar(n)) == Some(n)
  {
  }

  /** `hex.EncodeToString`: two digits per byte, high nibble first, no separator. */
  function Encode(bytes: seq<byte>): (s: string)
    ensures |s| == 2 * |bytes|
    ensures forall i :: 0 <= i < |s| ==> IsLowerHexDigit(s[i])
  {
    if bytes == [] then []
    else [HexChar(bytes[0] / 16), HexChar(bytes[0] % 16)] + Encode(bytes[1..])
  }

  /** The characters written for byte `i` sit at positions `2i` and `2i+1`. */
  lemma {:induction false} EncodeAt(bytes: seq<byte>, i: nat)
    requires i < |bytes|
    ensures Encode(bytes)[2 * i] == Alphabet[bytes[i] / 16]
    ensures Encode(bytes)[2 * i + 1] == Alphabet[bytes[i] % 16]
  {
    if i > 0 {
      EncodeAt(bytes[1..], i - 1);
      assert Encode(bytes)[2 * i] == Encode(bytes[1..])[2 * (i - 1)];
      assert Encode(bytes)[2 * i + 1] == Encode(bytes[1..])[2 * (i - 1) + 1];
    }
  }

  /** The errors of Go's `hex.DecodeString`. */
  datatype HexError = ErrLength | InvalidByte(c: char)

  /**
    `hex.DecodeString`: digit pairs left to right; a character that is not a
    digit is reported before an odd length is, as Go's `Decode` does.
  */
  function Decode(s: string): (r: Result<seq<byte>, HexError>)
    ensures r.Ok? ==> 2 * |r.value| == |s|
  {
    if |s| == 0 then Ok([])
    else if |s| == 1 then
      if DigitValue(s[0]).None? then Err(InvalidByte(s[0])) else Err(ErrLength)
    else
      match (DigitValue(s[0]), DigitValue(s[1]))
      case (None, _) => Err(InvalidByte(s[0]))
      case (Some(_), None) => Err(InvalidByte(s[1]))
      case (Some(hi), Some(lo)) =>
        match Decode(s[2..])
        case Err(e) => Err(e)
        case Ok(rest) => Ok([hi as int * 16 + lo] + rest)
  }

  /** Decoding the encoding gives back exactly the bytes. */
  lemma {:induction false} DecodeEncode(bytes: seq<byte>)
    ensures Decode(Encode(bytes)) == Ok(bytes)
  {
    if bytes != [] {
      var s := Encode(bytes);
      var b := bytes[0];
      DigitValueOfHexChar(b / 16);
      DigitValueOfHexChar(b % 16);
      assert s[2..] == Encode(bytes[1..]);
      DecodeEncode(bytes[1..]);
      assert [b / 16 * 16 + b % 16] + bytes[1..] == bytes;
    }
  }

  /** Distinct byte strings have distinct encodings. */
  lemma EncodeInjective(a: seq<byte>, b: seq<byte>)
    ensures Encode(a) == Encode(b) ==> a == b
  {
    DecodeEncode(a);
    DecodeEncode(b);
  }

  /** Decoding succeeds exactly on even-length strings of hex digits (either case). */
  lemma {:induction false} DecodeOkIff(s: string)
    ensures Decode(s).Ok? <==> |s| % 2 == 0 && forall i :: 0 <= i < |s| ==> DigitValue(s[i]).Some?
  {
    if |s| >= 2 {
      DecodeOkIff(s[2..]);
      assert forall i :: 2 <= i < |s| ==> s[i] == s[2..][i - 2];
    }
  }

  /** The first non-digit character is the one reported, wherever the length ends. */
  lemma {:induction false} DecodeReportsFirstInvalid(s: string, k: nat)
    requires k < |s| && DigitValue(s[k]).None?
    requires forall j :: 0 <= j < k ==> DigitValue(s[j]).Some?
    ensures Decode(s) == Err(InvalidByte(s[k]))
  {
    if k >= 2 {
      DecodeReportsFirstInvalid(s[2..], k - 2);
    }
  }

  /** A string of digits of odd length is refused for its length. */
  lemma {:induction false} DecodeOddLength(s: string)
    requires |s| % 2 == 1
    requires forall i :: 0 <= i < |s| ==> DigitValue(s[i]).Some?
    ensures Decode(s) == Err(ErrLength)
  {
    if |s| > 1 {
      DecodeOddLength(s[2..]);
    }
  }

  /** Every even-length lowercase hex string is the encoding of what it decodes to. */
  lemma {:induction false} EncodeDecode(s: string)
    requires |s| % 2 == 0
    requires forall i :: 0 <= i < |s| ==> IsLowerHexDigit(s[i])
    ensures Decode(s).Ok? && Encode(Decode(s).value) == s
  {
    if |s| > 0 {
      EncodeDecode(s[2..]);
      var rest := Decode(s[2..]).value;
      var hi := DigitValue(s[0]).value;
      var lo := DigitValue(s[1]).value;
      var b: byte := hi as int * 16 + lo;
      assert b / 16 == hi && b % 16 == lo;
      assert Decode(s).value == [b] + rest;
      assert ([b] + rest)[1..] == rest;
      assert HexChar(hi) == s[0] && HexChar(lo) == s[1];
      assert s == [s[0], s[1]] + s[2..];
    }
  }
}
