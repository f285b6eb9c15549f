/** `encodeURIComponent`, used for the placeholder image address built from a project title:
    every character outside the unreserved set becomes the percent-escaped bytes of its UTF-8
    encoding. */
module Uri {

  /** The characters `encodeURIComponent` leaves as they are. */
  predicate Unreserved(c: char) {
    ('A' <= c <= 'Z') || ('a' <= c <= 'z') || ('0' <= c <= '9')
    || c == '-' || c == '_' || c == '.' || c == '!' || c == '~' || c == '*' || c == '\'' || c == '(' || c == ')'
  }

  predicate UpperHex(c: char) {
    ('0' <= c <= '9') || ('A' <= c <= 'F')
  }

  /** The UTF-8 bytes of one Unicode scalar value. */
  function Utf8(c: char): (bytes: seq<nat>)
    ensures 1 <= |bytes| <= 4
    ensures forall i :: 0 <= i < |bytes| ==> bytes[i] < 256
    ensures (c as int < 0x80) <==> |bytes| == 1
    ensures (0x80 <= c as int < 0x800) <==> |bytes| == 2
    ensures (0x800 <= c as int < 0x1_0000) <==> |bytes| == 3
    ensures (0x1_0000 <= c as int) <==> |bytes| == 4
    ensures |bytes| == 1 ==> bytes[0] == c as int
  {
    var cp := c as int;
    if cp < 0x80 then [cp]
    else if cp < 0x800 then [0xC0 + cp / 0x40, 0x80 + cp % 0x40]
    else if cp < 0x1_0000 then [0xE0 + cp / 0x1000, 0x80 + (cp / 0x40) % 0x40, 0x80 + cp % 0x40]
    else [0xF0 + cp / 0x4_0000, 0x80 + (cp / 0x1000) % 0x40, 0x80 + (cp / 0x40) % 0x40, 0x80 + cp % 0x40]
  }

  /** A UTF-8 continuation byte, `10xxxxxx`. */
  predicate Continuation(b: nat) {
    0x80 <= b < 0xC0
  }

  /** The code point a well-formed UTF-8 sequence of one to four bytes stands for: the
      payload bits of the leading byte followed by six bits from every continuation byte. */
  function Utf8Value(bytes: seq<nat>): int
    requires 1 <= |bytes| <= 4
  {
    if |bytes| == 1 then bytes[0]
    else if |bytes| == 2 then (bytes[0] as int - 0xC0) * 0x40 + (bytes[1] as int - 0x80)
    else if |bytes| == 3 then (bytes[0] as int - 0xE0) * 0x1000 + (bytes[1] as int - 0x80) * 0x40 + (bytes[2] as int - 0x80)
    else (bytes[0] as int - 0xF0) * 0x4_0000 + (bytes[1] as int - 0x80) * 0x1000 + (bytes[2] as int - 0x80) * 0x40 + (bytes[3] as int - 0x80)
  }

  /** Cutting six bits twice is cutting twelve bits. */
  lemma SixBitsTwice(cp: nat)
    ensures (cp / 0x40) / 0x40 == cp / 0x1000
    ensures cp / 0x1000 * 0x1000 + (cp / 0x40) % 0x40 * 0x40 + cp % 0x40 == cp
  {
    var q := cp / 0x40;
    assert cp == q * 0x40 + cp % 0x40;
    assert q == q / 0x40 * 0x40 + q % 0x40;
    assert cp == q / 0x40 * 0x1000 + q % 0x40 * 0x40 + cp % 0x40;
  }

  /** Cutting six bits three times is cutting eighteen bits. */
  lemma SixBitsThrice(cp: nat)
    ensures cp / 0x4_0000 * 0x4_0000 + (cp / 0x1000) % 0x40 * 0x1000 + (cp / 0x40) % 0x40 * 0x40 + cp % 0x40 == cp
  {
    SixBitsTwice(cp);
    var q := cp / 0x1000;
    assert q == q / 0x40 * 0x40 + q % 0x40;
    assert q / 0x40 == cp / 0x4_0000;
  }

  /** UTF-8 decoding inverts the encoding, and the encoding is well formed: the leading byte
      announces the length (`0xxxxxxx`, `110xxxxx`, `1110xxxx`, `11110xxx`) and every other
      byte is a continuation byte. */
  lemma Utf8RoundTrip(c: char)
    ensures Utf8Value(Utf8(c)) == c as int
    ensures var bytes := Utf8(c);
      && (|bytes| == 1 <==> bytes[0] < 0x80)
      && (|bytes| == 2 <==> 0xC0 <= bytes[0] < 0xE0)
      && (|bytes| == 3 <==> 0xE0 <= bytes[0] < 0xF0)
      && (|bytes| == 4 <==> 0xF0 <= bytes[0] < 0xF8)
      && forall i :: 1 <= i < |bytes| ==> Continuation(bytes[i])
  {
    var cp := c as int;
    if 0x800 <= cp < 0x1_0000 {
      SixBitsTwice(cp);
    } else if 0x1_0000 <= cp {
      SixBitsTwice(cp);
      SixBitsThrice(cp);
    }
  }

  /** The value of an upper-case hex digit. */
  function HexValue(c: char): nat
    requires UpperHex(c)
  {
    if '0' <= c <= '9' then c as int - '0' as int else c as int - 'A' as int + 10
  }

  /** The upper-case hex digit of a value below 16; `HexValue` reads it back. */
  function HexDigit(n: nat): (c: char)
    requires n < 16
    ensures UpperHex(c) && HexValue(c) == n
  {
    if n < 10 then ('0' as int + n) as char else ('A' as int + n - 10) as char
  }

  /** `%XX` for one byte; the two hex digits read back as the byte. */
  function PercentByte(b: nat): (r: string)
    requires b < 256
    ensures |r| == 3 && r[0] == '%' && UpperHex(r[1]) && UpperHex(r[2])
    ensures HexValue(r[1]) * 16 + HexValue(r[2]) == b
  {
    ['%', HexDigit(b / 16), HexDigit(b % 16)]
  }

  /** `%XX` for every byte. */
  function PercentBytes(bytes: seq<nat>): (r: string)
    requires forall i :: 0 <= i < |bytes| ==> bytes[i] < 256
    ensures |r| == 3 * |bytes|
    ensures forall i :: 0 <= i < |r| ==> r[i] == '%' || UpperHex(r[i])
  {
    if bytes == [] then []
    else
      var head, rest := PercentByte(bytes[0]), PercentBytes(bytes[1..]);
      assert forall i :: 3 <= i < |head + rest| ==> (head + rest)[i] == rest[i - 3];
      head + rest
  }

  /** Percent-decoding: every group of three characters gives the byte its two hex digits
      denote (a group that is not an escape gives 0). */
  function PercentDecode(r: string): seq<nat> {
    if |r| < 3 then []
    else
      var b := if UpperHex(r[1]) && UpperHex(r[2]) then HexValue(r[1]) * 16 + HexValue(r[2]) else 0;
      [b] + PercentDecode(r[3..])
  }

  /** Percent-decoding gives the bytes back, so no two byte strings share an escape. */
  lemma {:induction false} PercentRoundTrip(bytes: seq<nat>)
    requires forall i :: 0 <= i < |bytes| ==> bytes[i] < 256
    ensures PercentDecode(PercentBytes(bytes)) == bytes
  {
    if bytes != [] {
      var head, rest := PercentByte(bytes[0]), PercentBytes(bytes[1..]);
      assert (head + rest)[3..] == rest;
      assert (head + rest)[1] == head[1] && (head + rest)[2] == head[2];
      PercentRoundTrip(bytes[1..]);
      assert [bytes[0]] + bytes[1..] == bytes;
    }
  }

  function EncodeChar(c: char): string {
    if Unreserved(c) then [c] else PercentBytes(Utf8(c))
  }

  /** The encoding is plain ASCII made of unreserved characters, '%' and upper-case hex
      digits, and leaves a string of unreserved characters as it is. */
  function EncodeURIComponent(s: string): (r: string)
    ensures forall i :: 0 <= i < |r| ==> Unreserved(r[i]) || r[i] == '%' || UpperHex(r[i])
    ensures (forall i :: 0 <= i < |s| ==> Unreserved(s[i])) ==> r == s
    ensures |s| <= |r| <= 12 * |s|
  {
    if s == [] then []
    else
      var head, rest := EncodeChar(s[0]), EncodeURIComponent(s[1..]);
      assert forall i :: 0 <= i < |head + rest| ==> (head + rest)[i] in head || (head + rest)[i] in rest;
      assert (forall i :: 0 <= i < |s| ==> Unreserved(s[i])) ==> head + rest == [s[0]] + s[1..] == s;
      head + rest
  }
  /** The encoding works character by character: encoding a concatenation concatenates the
      encodings. */
  lemma {:induction false} EncodeConcat(a: string, b: string)
    ensures EncodeURIComponent(a + b) == EncodeURIComponent(a) + EncodeURIComponent(b)
  {
    if a == [] {
      assert a + b == b;
    } else {
      var ab := a + b;
      assert ab[0] == a[0] && ab[1..] == a[1..] + b;
      EncodeConcat(a[1..], b);
      var head, restA, restB := EncodeChar(a[0]), EncodeURIComponent(a[1..]), EncodeURIComponent(b);
      calc {
        EncodeURIComponent(ab);
        head + EncodeURIComponent(a[1..] + b);
        head + (restA + restB);
        (head + restA) + restB;
      }
    }
  }

  /** A single character: an unreserved one stays, any other becomes the percent-escaped
      bytes of its UTF-8 encoding. */
  lemma EncodeSingle(c: char)
    ensures Unreserved(c) ==> EncodeURIComponent([c]) == [c]
    ensures !Unreserved(c) ==> EncodeURIComponent([c]) == PercentBytes(Utf8(c))
  {
    assert [c][1..] == [];
  }

  /** A space in a title becomes "%20". */
  lemma EncodeSpace()
    ensures EncodeURIComponent(" ") == "%20"
  {
    EncodeSingle(' ');
    assert PercentBytes([0x20]) == "%20" by {
      assert [0x20][1..] == [];
    }
  }
}
