/** UTF-8, the byte form of Go and Rust strings. */
module Text {
  import opened Bytes

  function Utf8Char(ch: char): (bs: seq<byte>)
    ensures 1 <= |bs| <= 4
    ensures ch as int < 0x80 ==> bs == [ch as int]
    ensures ch as int >= 0x80 ==> bs[0] >= 0x80
  {
    var n := ch as int;
    if n < 0x80 then [n]
    else if n < 0x800 then [0xC0 + n / 0x40, 0x80 + n % 0x40]
    else if n < 0x1_0000 then [0xE0 + n / 0x1000, 0x80 + n / 0x40 % 0x40, 0x80 + n % 0x40]
    else [0xF0 + n / 0x4_0000, 0x80 + n / 0x1000 % 0x40, 0x80 + n / 0x40 % 0x40, 0x80 + n % 0x40]
  }

  /** What a lead byte and up to three continuation bytes stand for. */
  function CodePoint(bs: seq<byte>): int
    requires 1 <= |bs| <= 4
  {
    if |bs| == 1 then bs[0]
    else if |bs| == 2 then (bs[0] as int - 0xC0) * 0x40 + Low(bs[1])
    else if |bs| == 3 then (bs[0] as int - 0xE0) * 0x1000 + Low(bs[1]) * 0x40 + Low(bs[2])
    else (bs[0] as int - 0xF0) * 0x4_0000 + Low(bs[1]) * 0x1000 + Low(bs[2]) * 0x40 + Low(bs[3])
  }

  function Low(b: byte): int { b as int - 0x80 }

  /** The bytes of a character read back as it, in the shortest form. */
  lemma {:induction false} Utf8CharReadsBack(ch: char)
    ensures var bs := Utf8Char(ch);
            && CodePoint(bs) == ch as int
            && (forall i :: 1 <= i < |bs| ==> 0x80 <= bs[i] < 0xC0)
            && ch as int >= [0, 0x80, 0x800, 0x1_0000][|bs| - 1]
            && [0, 0xC0, 0xE0, 0xF0][|bs| - 1] <= bs[0] <= [0x7F, 0xDF, 0xEF, 0xF7][|bs| - 1]
  {
    var n := ch as int;
    assert n / 0x40 / 0x40 == n / 0x1000 && n / 0x1000 / 0x40 == n / 0x4_0000;
  }

  function Concat(parts: seq<seq<byte>>): seq<byte> {
    if parts == [] then [] else parts[0] + Concat(parts[1..])
  }

  function Chars(s: string): (parts: seq<seq<byte>>)
    ensures |parts| == |s|
    ensures forall i :: 0 <= i < |s| ==> parts[i] == Utf8Char(s[i])
  {
    seq(|s|, i requires 0 <= i < |s| => Utf8Char(s[i]))
  }

  function Utf8(s: string): seq<byte> {
    Concat(Chars(s))
  }

  predicate Ascii(s: string) {
    forall i :: 0 <= i < |s| ==> s[i] as int < 0x80
  }

  lemma {:induction false} ConcatOfSingles(parts: seq<seq<byte>>)
    requires forall i :: 0 <= i < |parts| ==> |parts[i]| == 1
    ensures |Concat(parts)| == |parts|
    ensures forall i :: 0 <= i < |parts| ==> Concat(parts)[i] == parts[i][0]
  {
    if parts != [] {
      ConcatOfSingles(parts[1..]);
    }
  }

  lemma {:induction false} Utf8OfAscii(s: string)
    requires Ascii(s)
    ensures |Utf8(s)| == |s|
    ensures forall i :: 0 <= i < |s| ==> Utf8(s)[i] == s[i] as int
  {
    hide Concat, Chars;
    ConcatOfSingles(Chars(s));
  }

  lemma {:induction false} ConcatContains(parts: seq<seq<byte>>, i: nat)
    requires i < |parts| && |parts[i]| >= 1
    ensures exists k :: 0 <= k < |Concat(parts)| && Concat(parts)[k] == parts[i][0]
  {
    if i == 0 {
      assert Concat(parts)[0] == parts[0][0];
    } else {
      ConcatContains(parts[1..], i - 1);
      var k :| 0 <= k < |Concat(parts[1..])| && Concat(parts[1..])[k] == parts[i][0];
      assert Concat(parts)[|parts[0]| + k] == parts[i][0];
    }
  }

  /** No character takes more than four bytes. */
  lemma {:induction false} Utf8Length(s: string)
    ensures |Utf8(s)| <= 4 * |s|
  {
    hide Utf8Char;
    ConcatLength(Chars(s));
  }

  lemma {:induction false} ConcatLength(parts: seq<seq<byte>>)
    requires forall i :: 0 <= i < |parts| ==> |parts[i]| <= 4
    ensures |Concat(parts)| <= 4 * |parts|
  {
    if parts != [] {
      ConcatLength(parts[1..]);
    }
  }

  /** Only ASCII text encodes to bytes that are all below 0x80. */
  lemma {:induction false} AsciiFromUtf8(s: string)
    requires forall k :: 0 <= k < |Utf8(s)| ==> Utf8(s)[k] < 0x80
    ensures Ascii(s)
  {
    forall i | 0 <= i < |s|
      ensures s[i] as int < 0x80
    {
      ConcatContains(Chars(s), i);
      var k :| 0 <= k < |Utf8(s)| && Utf8(s)[k] == Chars(s)[i][0];
    }
  }
}
