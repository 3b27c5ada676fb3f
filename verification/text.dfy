/** Octets on the wire, ASCII text, Python's whitespace classes and ASCII
    case folding. */
module Text {
  import opened Seqs

  /** One octet of a socket stream or a file. */
  type byte = b: int | 0 <= b < 256

  /** The line terminator of the router's control protocol, `\n`. */
  const LF: byte := 10

  predicate IsAscii(s: string) {
    forall i :: 0 <= i < |s| ==> s[i] as int < 128
  }

  /** `s.encode()` for ASCII text: one octet per character, same code. */
  function Ascii(s: string): (r: seq<byte>)
    requires IsAscii(s)
    ensures |r| == |s|
    ensures forall i :: 0 <= i < |s| ==> r[i] == s[i] as int
  {
    seq(|s|, i requires 0 <= i < |s| => s[i] as int)
  }

  /** What `bytes.split()` and `bytes.strip()` treat as whitespace. */
  const ByteSpaces: set<byte> := {9, 10, 11, 12, 13, 32}

  /** The octets that decode to an ASCII character `str.split()` and
      `str.strip()` treat as whitespace: tab to carriage return, the four
      information separators 0x1C to 0x1F, and the space. */
  const TextSpaces: set<byte> := {9, 10, 11, 12, 13, 28, 29, 30, 31, 32}

  predicate AsciiOctets(s: seq<byte>) {
    forall i :: 0 <= i < |s| ==> s[i] < 128
  }

  predicate IsContinuation(b: byte) {
    0x80 <= b <= 0xBF
  }

  /** The length of the well-formed UTF-8 sequence at the start of `s`, or 0
      when `s` does not start with one. The lead octet fixes the length; the
      ranges allowed for the second octet rule out overlong forms, UTF-16
      surrogates and code points above U+10FFFF (table 3-7 of the Unicode
      standard, which Python's strict `bytes.decode()` follows). */
  function Utf8Length(s: seq<byte>): (n: nat)
    ensures n <= 4 && n <= |s|
    ensures n > 0 ==> (n == 1 <==> s[0] < 128)
    ensures n >= 2 ==> forall k :: 1 <= k < n ==> s[k] >= 128
  {
    if |s| == 0 then 0
    else
      var b0 := s[0];
      if b0 < 0x80 then 1
      else if 0xC2 <= b0 <= 0xDF then
        (if 1 < |s| && IsContinuation(s[1]) then 2 else 0)
      else if 0xE0 <= b0 <= 0xEF then
        var lo := if b0 == 0xE0 then 0xA0 else 0x80;
        var hi := if b0 == 0xED then 0x9F else 0xBF;
        (if 2 < |s| && lo <= s[1] <= hi && IsContinuation(s[2]) then 3 else 0)
      else if 0xF0 <= b0 <= 0xF4 then
        var lo := if b0 == 0xF0 then 0x90 else 0x80;
        var hi := if b0 == 0xF4 then 0x8F else 0xBF;
        (if 3 < |s| && lo <= s[1] <= hi && IsContinuation(s[2]) && IsContinuation(s[3]) then 4 else 0)
      else 0
  }

  /** `s.decode()` succeeds: `s` is a run of well-formed UTF-8 sequences. */
  predicate ValidUtf8(s: seq<byte>)
    decreases |s|
  {
    |s| == 0 || (Utf8Length(s) > 0 && ValidUtf8(s[Utf8Length(s)..]))
  }

  /** Only the octets of the first sequence decide its length. */
  lemma Utf8LengthPrefix(s: seq<byte>, t: seq<byte>)
    requires Utf8Length(s) > 0
    ensures Utf8Length(s + t) == Utf8Length(s)
  {
    assert forall k :: 0 <= k < |s| ==> (s + t)[k] == s[k];
  }

  /** ASCII text decodes. */
  lemma {:induction false} AsciiIsUtf8(s: seq<byte>)
    requires AsciiOctets(s)
    ensures ValidUtf8(s)
    decreases |s|
  {
    if |s| > 0 {
      AsciiIsUtf8(s[1..]);
    }
  }

  /** Decodable text followed by decodable text decodes. */
  lemma {:induction false} Utf8Concat(a: seq<byte>, b: seq<byte>)
    requires ValidUtf8(a) && ValidUtf8(b)
    ensures ValidUtf8(a + b)
    decreases |a|
  {
    if |a| > 0 {
      var n := Utf8Length(a);
      Utf8LengthPrefix(a, b);
      assert ValidUtf8(a[n..]);
      assert (a + b)[n..] == a[n..] + b;
      Utf8Concat(a[n..], b);
      assert Utf8Length(a + b) == n && ValidUtf8((a + b)[n..]);
    } else {
      assert a + b == b;
    }
  }

  /** An ASCII octet can only end a well-formed text as a character of its
      own, so removing it leaves well-formed text. */
  lemma {:induction false} Utf8DropAscii(a: seq<byte>, x: byte)
    requires x < 128
    ensures ValidUtf8(a + [x]) <==> ValidUtf8(a)
    decreases |a|
  {
    if ValidUtf8(a) {
      AsciiIsUtf8([x]);
      Utf8Concat(a, [x]);
    }
    if ValidUtf8(a + [x]) && |a| > 0 {
      var s := a + [x];
      var n := Utf8Length(s);
      assert s[|s| - 1] == x;
      assert n <= |a|;
      assert Utf8Length(a) == n by {
        assert forall k :: 0 <= k < |a| ==> s[k] == a[k];
      }
      assert s[n..] == a[n..] + [x];
      Utf8DropAscii(a[n..], x);
    }
  }

  /** What `str.split()` and `str.strip()` treat as whitespace
      (the characters for which Python's `str.isspace` holds). */
  const CharSpaces: set<char> := {
    '\t', '\n', '\U{0B}', '\U{0C}', '\r', '\U{1C}', '\U{1D}', '\U{1E}', '\U{1F}', ' ',
    '\U{85}', '\U{A0}', '\U{1680}',
    '\U{2000}', '\U{2001}', '\U{2002}', '\U{2003}', '\U{2004}', '\U{2005}',
    '\U{2006}', '\U{2007}', '\U{2008}', '\U{2009}', '\U{200A}',
    '\U{2028}', '\U{2029}', '\U{202F}', '\U{205F}', '\U{3000}'
  }

  /** Printable ASCII other than the space is not whitespace. */
  lemma PrintableNotSpace(s: string)
    requires forall j :: 0 <= j < |s| ==> '!' <= s[j] <= '~'
    ensures forall j :: 0 <= j < |s| ==> s[j] !in CharSpaces
  {
    assert forall x :: x in CharSpaces ==> x <= ' ' || x >= '\U{85}';
  }

  function LowerChar(c: char): (d: char)
    ensures 'A' <= c <= 'Z' ==> d as int == c as int + 32
    ensures !('A' <= c <= 'Z') ==> d == c
  {
    if 'A' <= c <= 'Z' then (c as int + 32) as char else c
  }

  /** `s.lower()` restricted to ASCII letters. */
  function Lower(s: string): (r: string)
    ensures |r| == |s|
    ensures forall i :: 0 <= i < |s| ==> r[i] == LowerChar(s[i])
  {
    seq(|s|, i requires 0 <= i < |s| => LowerChar(s[i]))
  }

  /** Lower-casing leaves nothing upper-case behind, so it is idempotent. */
  lemma LowerIdempotent(s: string)
    ensures Lower(Lower(s)) == Lower(s)
  {
    forall i | 0 <= i < |s|
      ensures LowerChar(LowerChar(s[i])) == LowerChar(s[i])
    {
      var c := s[i];
      if 'A' <= c <= 'Z' {
        assert 'a' <= LowerChar(c) <= 'z';
      }
    }
  }
}
