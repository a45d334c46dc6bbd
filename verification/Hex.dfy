/** Hexadecimal text: how the host prints journals and reads seeds. */
module Hex {
  import opened Bytes
  import opened Text

  function HexChar(d: nat): (ch: char)
    requires d < 16
    ensures '0' <= ch <= '9' || 'a' <= ch <= 'f'
  {
    if d < 10 then ('0' as int + d) as char else ('a' as int + (d - 10)) as char
  }

  /** Two lower-case digits per byte. */
  function HexText(bs: seq<byte>): string {
    if bs == [] then [] else HexText(bs[..|bs| - 1]) + HexByte(bs[|bs| - 1])
  }

  function HexByte(b: byte): (s: string)
    ensures |s| == 2
  {
    [HexChar(b / 16), HexChar(b % 16)]
  }

  /** hex. */
  method PrintHex(bytes: seq<byte>) returns (out: string)
    ensures out == HexText(bytes) && |out| == 2 * |bytes|
    ensures forall i :: 0 <= i < |bytes| ==>
              out[2 * i] == "0123456789abcdef"[bytes[i] / 16] && out[2 * i + 1] == "0123456789abcdef"[bytes[i] % 16]
  {
    forall i | 0 <= i < |bytes|
      ensures |HexText(bytes)| == 2 * |bytes|
      ensures HexText(bytes)[2 * i] == "0123456789abcdef"[bytes[i] / 16]
      ensures HexText(bytes)[2 * i + 1] == "0123456789abcdef"[bytes[i] % 16]
    {
      HexTextAt(bytes, i);
    }
    out := [];
    for i := 0 to |bytes|
      invariant out == HexText(bytes[..i])
    {
      out := out + HexByte(bytes[i]);
      HexSnoc(bytes[..i], bytes[i]);
      assert bytes[..i + 1] == bytes[..i] + [bytes[i]];
    }
    assert bytes[..|bytes|] == bytes;
  }

  lemma {:induction false} HexSnoc(bs: seq<byte>, b: byte)
    ensures HexText(bs + [b]) == HexText(bs) + HexByte(b)
  {
    assert (bs + [b])[..|bs + [b]| - 1] == bs;
  }

  /** The high digit of each byte comes first. */
  lemma {:induction false} HexTextAt(bs: seq<byte>, i: nat)
    requires i < |bs|
    ensures |HexText(bs)| == 2 * |bs|
    ensures HexText(bs)[2 * i] == "0123456789abcdef"[bs[i] / 16]
    ensures HexText(bs)[2 * i + 1] == "0123456789abcdef"[bs[i] % 16]
    decreases |bs|
  {
    var n := |bs| - 1;
    HexLast(bs);
    if i < n {
      HexTextAt(bs[..n], i);
      hide HexText, HexByte;
      assert HexText(bs)[..2 * n][2 * i] == HexText(bs)[2 * i];
      assert HexText(bs)[..2 * n][2 * i + 1] == HexText(bs)[2 * i + 1];
    } else {
      hide HexText;
      HexCharAt(bs[i] / 16);
      HexCharAt(bs[i] % 16);
      assert HexText(bs)[2 * n..][0] == HexText(bs)[2 * n] && HexText(bs)[2 * n..][1] == HexText(bs)[2 * n + 1];
    }
  }

  lemma {:induction false} HexCharAt(d: nat)
    requires d < 16
    ensures HexChar(d) == "0123456789abcdef"[d]
  {
  }

  /** Both cases of the sixteen digits are read, and nothing else. */
  lemma {:induction false} DigitMeaning(b: byte, d: nat)
    requires d < 16
    ensures Digit(b) == d <==> b as char == "0123456789abcdef"[d] || b as char == "0123456789ABCDEF"[d]
  {
  }

  /** to_digit(16) of a byte read as a character. */
  function Digit(b: byte): (d: int)
    ensures d == -1 || 0 <= d < 16
  {
    if 48 <= b <= 57 then b as int - 48
    else if 97 <= b <= 102 then b as int - 87
    else if 65 <= b <= 70 then b as int - 55
    else -1
  }

  predicate IsHexDigit(ch: char) {
    '0' <= ch <= '9' || 'a' <= ch <= 'f' || 'A' <= ch <= 'F'
  }

  predicate AllHex(s: string) {
    forall i :: 0 <= i < |s| ==> IsHexDigit(s[i])
  }

  function LowerChar(ch: char): char {
    if 'A' <= ch <= 'Z' then ((ch as int) + 32) as char else ch
  }

  function Lower(s: string): (t: string)
    ensures |t| == |s| && forall i :: 0 <= i < |s| ==> t[i] == LowerChar(s[i])
  {
    seq(|s|, i requires 0 <= i < |s| => LowerChar(s[i]))
  }

  datatype HexResult = Decoded(bytes: seq<byte>) | OddLength | InvalidCharacter(code: byte)

  /** What the input must look like. */
  predicate Readable(s: string) {
    |s| % 2 == 0 && AllHex(s)
  }

  /** What reading the digits `t` must give. */
  ghost predicate Reads(t: string, r: HexResult) {
    && (r.Decoded? <==> Readable(t))
    && (r.Decoded? ==> HexText(r.bytes) == Lower(t))
    && (r.OddLength? <==> |Utf8(t)| % 2 != 0)
    && (r.InvalidCharacter? ==> exists i: nat :: FirstBad(Utf8(t), i) && r.code == Utf8(t)[i])
  }

  /** decode_hex: strips one leading `0x` and reads the rest. It accepts exactly an even
      number of hex digits of either case, and printing the result gives the input back in
      lower case. */
  method DecodeHex(hexStr: string) returns (r: HexResult)
    ensures forall t :: hexStr == "0x" + t ==> Reads(t, r)
    ensures !("0x" <= hexStr) ==> Reads(hexStr, r)
  {
    hide Reads;
    var trimmed := if "0x" <= hexStr then hexStr[2..] else hexStr;
    forall t | hexStr == "0x" + t
      ensures t == trimmed
    {
      assert ("0x" + t)[..2] == "0x" && ("0x" + t)[2..] == t;
    }
    r := DecodeDigits(trimmed);
  }

  /** The loop of decode_hex: walks the UTF-8 bytes of the digits two at a time. */
  method DecodeDigits(trimmed: string) returns (r: HexResult)
    ensures Reads(trimmed, r)
  {
    var bytes := Utf8(trimmed);
    hide Utf8;
    if |bytes| % 2 != 0 {
      NotReadable(trimmed, 0);
      return OddLength;
    }
    var out: seq<byte> := [];
    var i := 0;
    while i < |bytes|
      invariant 0 <= i <= |bytes| && |bytes| % 2 == 0 && i % 2 == 0
      invariant AllDigits(bytes[..i])
      invariant HexText(out) == PrintedDigits(bytes[..i])
    {
      var hi := Digit(bytes[i]);
      if hi < 0 {
        NotReadable(trimmed, i);
        assert FirstBad(bytes, i);
        return InvalidCharacter(bytes[i]);
      }
      var lo := Digit(bytes[i + 1]);
      if lo < 0 {
        NotReadable(trimmed, i + 1);
        GoodThenBad(bytes, i);
        return InvalidCharacter(bytes[i + 1]);
      }
      var b: byte := 16 * hi + lo;
      PairPrints(out, b, bytes, i);
      out := out + [b];
      i := i + 2;
    }
    assert bytes[..i] == bytes;
    ReadableText(trimmed);
    r := Decoded(out);
  }

  /** Byte `i` is the first that is no hex digit. */
  predicate FirstBad(bs: seq<byte>, i: nat) {
    i < |bs| && Digit(bs[i]) < 0 && AllDigits(bs[..i])
  }

  lemma {:induction false} GoodThenBad(bs: seq<byte>, i: nat)
    requires i + 1 < |bs| && AllDigits(bs[..i]) && Digit(bs[i]) >= 0 && Digit(bs[i + 1]) < 0
    ensures FirstBad(bs, i + 1)
  {
    hide Digit;
    var longer := bs[..i + 1];
    forall k | 0 <= k < |longer|
      ensures Digit(longer[k]) >= 0
    {
      assert k < i ==> longer[k] == bs[..i][k];
    }
  }

  predicate AllDigits(bs: seq<byte>) {
    forall i :: 0 <= i < |bs| ==> Digit(bs[i]) >= 0
  }

  /** The digits of `bs`, printed in lower case. */
  function PrintedDigits(bs: seq<byte>): (s: string)
    requires AllDigits(bs)
    ensures |s| == |bs| && forall i :: 0 <= i < |bs| ==> s[i] == HexChar(Digit(bs[i]))
  {
    seq(|bs|, i requires 0 <= i < |bs| => HexChar(Digit(bs[i])))
  }

  lemma {:induction false} PairPrints(out: seq<byte>, b: byte, bytes: seq<byte>, i: nat)
    requires i + 2 <= |bytes| && AllDigits(bytes[..i]) && HexText(out) == PrintedDigits(bytes[..i])
    requires Digit(bytes[i]) >= 0 && Digit(bytes[i + 1]) >= 0 && b == 16 * Digit(bytes[i]) + Digit(bytes[i + 1])
    ensures AllDigits(bytes[..i + 2])
    ensures HexText(out + [b]) == PrintedDigits(bytes[..i + 2])
  {
    HexSnoc(out, b);
    hide HexText, Digit;
    assert b / 16 == Digit(bytes[i]) && b % 16 == Digit(bytes[i + 1]);
    var longer := bytes[..i + 2];
    forall k | 0 <= k < |longer|
      ensures Digit(longer[k]) >= 0
    {
      assert k < i ==> longer[k] == bytes[..i][k];
    }
    var s := PrintedDigits(bytes[..i]) + HexByte(b);
    forall k | 0 <= k < |longer|
      ensures s[k] == PrintedDigits(longer)[k]
    {
      assert k < i ==> longer[k] == bytes[..i][k];
    }
  }

  /** An odd number of bytes, or a byte that is no digit, comes from unreadable text. */
  lemma {:induction false} NotReadable(s: string, i: nat)
    requires |Utf8(s)| % 2 != 0 || (i < |Utf8(s)| && Digit(Utf8(s)[i]) < 0)
    ensures !Readable(s)
  {
    if AllHex(s) {
      Utf8OfAscii(s);
    }
  }

  lemma {:induction false} ReadableText(s: string)
    requires AllDigits(Utf8(s)) && |Utf8(s)| % 2 == 0
    ensures Readable(s) && PrintedDigits(Utf8(s)) == Lower(s)
  {
    AsciiFromUtf8(s);
    Utf8OfAscii(s);
    hide Utf8;
    forall i | 0 <= i < |s|
      ensures IsHexDigit(s[i]) && PrintedDigits(Utf8(s))[i] == Lower(s)[i]
    {
      assert Digit(Utf8(s)[i]) >= 0;
    }
  }

  lemma {:induction false} HexTextDigits(bs: seq<byte>)
    ensures |HexText(bs)| == 2 * |bs|
    ensures forall i :: 0 <= i < |HexText(bs)| ==>
              '0' <= HexText(bs)[i] <= '9' || 'a' <= HexText(bs)[i] <= 'f'
  {
    if bs != [] {
      HexTextDigits(bs[..|bs| - 1]);
    }
  }

  lemma {:induction false} HexCharInjective(d: nat, e: nat)
    requires d < 16 && e < 16 && HexChar(d) == HexChar(e)
    ensures d == e
  {
  }

  lemma {:induction false} HexByteInjective(a: byte, b: byte)
    requires HexByte(a) == HexByte(b)
    ensures a == b
  {
    assert HexByte(a)[0] == HexByte(b)[0] && HexByte(a)[1] == HexByte(b)[1];
    HexCharInjective(a / 16, b / 16);
    HexCharInjective(a % 16, b % 16);
  }

  lemma {:induction false} HexLast(bs: seq<byte>)
    requires bs != []
    ensures var n, s := |bs| - 1, HexText(bs);
            |s| == 2 * n + 2 && s[..2 * n] == HexText(bs[..n]) && s[2 * n..] == HexByte(bs[n])
  {
    HexTextDigits(bs[..|bs| - 1]);
  }

  lemma {:induction false} HexTextInjective(a: seq<byte>, b: seq<byte>)
    requires HexText(a) == HexText(b)
    ensures a == b
    decreases |a|
  {
    HexTextDigits(a);
    HexTextDigits(b);
    hide HexText, HexByte;
    if a != [] {
      var n := |a| - 1;
      HexLast(a);
      HexLast(b);
      HexByteInjective(a[n], b[n]);
      HexTextInjective(a[..n], b[..n]);
      assert a == a[..n] + [a[n]] && b == b[..n] + [b[n]];
    }
  }

  /** Printed text has no `0x` to strip and is already lower case. */
  lemma {:induction false} PrintedTextIsCanonical(bs: seq<byte>)
    ensures !("0x" <= HexText(bs)) && Lower(HexText(bs)) == HexText(bs) && Readable(HexText(bs))
  {
    HexTextDigits(bs);
    hide HexText;
    var s := HexText(bs);
    assert |s| >= 2 ==> s[1] != "0x"[1];
    assert Lower(s) == s;
  }

  /** Reading what was printed gives the bytes back, for every byte string. */
  method PrintThenRead(bytes: seq<byte>) returns (text: string, r: HexResult)
    ensures text == HexText(bytes) && r == Decoded(bytes)
  {
    text := PrintHex(bytes);
    PrintedTextIsCanonical(bytes);
    hide HexText;
    r := DecodeHex(text);
    HexTextInjective(r.bytes, bytes);
  }
}
