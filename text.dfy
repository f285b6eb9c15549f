/** String handling the script relies on: `String.prototype.trim`, `split(',')`, the
    technology-list parser of the project form, ASCII lower-casing and `includes`. */
module Text {

  /** The code points that `trim` removes and that the regular-expression class `\s` matches
      (WhiteSpace and LineTerminator in ECMAScript). */
  predicate IsSpace(c: char) {
    || c == '\t' || c == '\n' || c == '\U{B}' || c == '\U{C}' || c == '\r' || c == ' '
    || c == '\U{A0}' || c == '\U{1680}' || ('\U{2000}' <= c <= '\U{200A}')
    || c == '\U{2028}' || c == '\U{2029}' || c == '\U{202F}' || c == '\U{205F}'
    || c == '\U{3000}' || c == '\U{FEFF}'
  }

  predicate AllSpace(s: string) {
    forall i :: 0 <= i < |s| ==> IsSpace(s[i])
  }

  predicate NoSpace(s: string) {
    forall i :: 0 <= i < |s| ==> !IsSpace(s[i])
  }

  /** `r` is `s` with some all-white-space prefix and some all-white-space suffix cut off. */
  ghost predicate Strips(s: string, r: string) {
    exists i, j :: 0 <= i <= j <= |s| && r == s[i..j] && AllSpace(s[..i]) && AllSpace(s[j..])
  }

  /** Neither end of `r` is white space. */
  predicate Trimmed(r: string) {
    r == [] || (!IsSpace(r[0]) && !IsSpace(r[|r| - 1]))
  }

  /** Number of white-space characters at the start of `s`. */
  function LeadingSpace(s: string): (n: nat)
    ensures n <= |s| && AllSpace(s[..n])
    ensures n < |s| ==> !IsSpace(s[n])
  {
    if s != [] && IsSpace(s[0]) then
      var n := LeadingSpace(s[1..]);
      assert s[..n + 1] == [s[0]] + s[1..][..n];
      n + 1
    else 0
  }

  /** Where the white space at the end of `s` begins. */
  function TrailingSpaceStart(s: string): (n: nat)
    ensures n <= |s| && AllSpace(s[n..])
    ensures n > 0 ==> !IsSpace(s[n - 1])
  {
    if s != [] && IsSpace(s[|s| - 1]) then
      var n := TrailingSpaceStart(s[..|s| - 1]);
      assert s[n..] == s[..|s| - 1][n..] + [s[|s| - 1]];
      n
    else |s|
  }

  /** `trimStart` */
  function TrimStart(s: string): string {
    s[LeadingSpace(s)..]
  }

  /** `trimEnd` */
  function TrimEnd(s: string): string {
    s[..TrailingSpaceStart(s)]
  }

  /** `String.prototype.trim`: white space is removed from both ends. */
  function Trim(s: string): (r: string)
    ensures |r| <= |s| && Trimmed(r)
  {
    var t := TrimStart(s);
    var r := TrimEnd(t);
    assert r != [] ==> r[0] == t[0];
    r
  }

  /** What `Trim` cuts off is white space, from the two ends only. */
  lemma TrimStrips(s: string)
    ensures Strips(s, Trim(s))
  {
    var i := LeadingSpace(s);
    var t := s[i..];
    var j := TrailingSpaceStart(t);
    assert Trim(s) == s[i..i + j];
    assert s[i + j..] == t[j..];
  }

  /** The leading white space ends at the first character that is not white space. */
  lemma {:induction false} LeadingSpaceAt(s: string, i: int)
    requires 0 <= i <= |s| && AllSpace(s[..i]) && (i < |s| ==> !IsSpace(s[i]))
    ensures LeadingSpace(s) == i
  {
    if i > 0 {
      assert forall k :: 0 <= k < i - 1 ==> s[1..][k] == s[..i][k + 1];
      LeadingSpaceAt(s[1..], i - 1);
      assert s[0] == s[..i][0];
    }
  }

  /** The trailing white space begins after the last character that is not white space. */
  lemma {:induction false} TrailingSpaceAt(s: string, j: int)
    requires 0 <= j <= |s| && AllSpace(s[j..]) && (j > 0 ==> !IsSpace(s[j - 1]))
    ensures TrailingSpaceStart(s) == j
  {
    if j < |s| {
      var u := s[..|s| - 1];
      assert forall k :: 0 <= k < |s| - 1 - j ==> u[j..][k] == s[j..][k];
      TrailingSpaceAt(u, j);
      assert s[|s| - 1] == s[j..][|s| - 1 - j];
    }
  }

  /** A string trims to the empty string exactly when it is all white space. */
  lemma {:induction false} TrimEmptyIffAllSpace(s: string)
    ensures Trim(s) == [] <==> AllSpace(s)
  {
    var i := LeadingSpace(s);
    var t := s[i..];
    if AllSpace(s) {
      LeadingSpaceAt(s, |s|);
      assert s[..|s|] == s;
    }
    if Trim(s) == [] {
      assert i == |s|;
      assert s[..|s|] == s;
    }
  }

  /** `Trim` is the only way to strip white space from the ends of `s` that leaves neither end
      white: any such strip equals `Trim(s)`. */
  lemma TrimUnique(s: string, r: string)
    requires Strips(s, r) && Trimmed(r)
    ensures r == Trim(s)
  {
    var i, j :| 0 <= i <= j <= |s| && r == s[i..j] && AllSpace(s[..i]) && AllSpace(s[j..]);
    if i == j {
      SpaceAround(s, i);
      TrimEmptyIffAllSpace(s);
    } else {
      assert s[i] == r[0] && s[j - 1] == r[|r| - 1];
      TrimAt(s, i, j);
    }
  }

  /** White space up to `i` and from `i` on make all of `s` white space. */
  lemma SpaceAround(s: string, i: int)
    requires 0 <= i <= |s| && AllSpace(s[..i]) && AllSpace(s[i..])
    ensures AllSpace(s)
  {
    forall k | 0 <= k < |s| ensures IsSpace(s[k]) {
      if k < i { assert s[k] == s[..i][k]; } else { assert s[k] == s[i..][k - i]; }
    }
  }

  /** Trimming keeps exactly the part between the white space at the two ends. */
  lemma TrimAt(s: string, i: int, j: int)
    requires 0 <= i < j <= |s| && AllSpace(s[..i]) && AllSpace(s[j..])
    requires !IsSpace(s[i]) && !IsSpace(s[j - 1])
    ensures Trim(s) == s[i..j]
  {
    LeadingSpaceAt(s, i);
    var t := s[i..];
    assert t[j - i..] == s[j..];
    assert t[j - i - 1] == s[j - 1];
    TrailingSpaceAt(t, j - i);
    assert Trim(s) == t[..j - i];
  }

  /** Trimming twice is trimming once. */
  lemma {:induction false} TrimIdempotent(s: string)
    ensures Trim(Trim(s)) == Trim(s)
  {
    TrimOfTrimmed(Trim(s));
  }

  lemma {:induction false} TrimOfTrimmed(r: string)
    requires Trimmed(r)
    ensures Trim(r) == r
  {
    LeadingSpaceAt(r, 0);
    assert TrimStart(r) == r;
    TrailingSpaceAt(r, |r|);
  }

  /** Number of occurrences of `c` in `s`. */
  function Count(s: string, c: char): (n: nat)
    ensures n <= |s|
  {
    if s == [] then 0 else (if s[0] == c then 1 else 0) + Count(s[1..], c)
  }

  lemma {:induction false} CountConcat(a: string, b: string, c: char)
    ensures Count(a + b, c) == Count(a, c) + Count(b, c)
  {
    if a != [] {
      assert (a + b)[0] == a[0];
      assert (a + b)[1..] == a[1..] + b;
      CountConcat(a[1..], b, c);
    } else {
      assert a + b == b;
    }
  }

  lemma {:induction false} CountZero(s: string, c: char)
    ensures Count(s, c) == 0 <==> c !in s
  {
    if s != [] {
      CountZero(s[1..], c);
      assert s == [s[0]] + s[1..];
    }
  }

  /** `s.split(sep)`: the pieces between separators, always at least one (`"".split(",")`
      is `[""]`). */
  function Split(s: string, sep: char): (r: seq<string>)
    ensures |r| == Count(s, sep) + 1
    ensures forall i :: 0 <= i < |r| ==> sep !in r[i]
    ensures Join(r, sep) == s
    decreases |s|
  {
    if s == [] then [[]]
    else
      var rest := Split(s[1..], sep);
      if s[0] == sep then
        var r := [[]] + rest;
        assert r[1..] == rest;
        r
      else
        var r := [[s[0]] + rest[0]] + rest[1..];
        assert r[1..] == rest[1..];
        assert |rest| > 1 ==> rest == [rest[0]] + rest[1..];
        r
  }

  /** `parts.join(sep)`, the inverse of `Split`. */
  function Join(parts: seq<string>, sep: char): string {
    if parts == [] then []
    else if |parts| == 1 then parts[0]
    else parts[0] + [sep] + Join(parts[1..], sep)
  }

  lemma {:induction false} SplitAfterPiece(a: string, b: string, sep: char)
    requires sep !in a
    ensures Split(a + [sep] + b, sep) == [a] + Split(b, sep)
  {
    if a != [] {
      assert (a + [sep] + b)[1..] == a[1..] + [sep] + b;
      SplitAfterPiece(a[1..], b, sep);
      assert [a[0]] + a[1..] == a;
    }
  }

  lemma {:induction false} SplitPiece(a: string, sep: char)
    requires sep !in a
    ensures Split(a, sep) == [a]
  {
    if a != [] {
      SplitPiece(a[1..], sep);
      assert [a[0]] + a[1..] == a;
    }
  }

  /** Splitting a join gives the pieces back, when no piece holds the separator. */
  lemma {:induction false} SplitJoin(parts: seq<string>, sep: char)
    requires parts != []
    requires forall i :: 0 <= i < |parts| ==> sep !in parts[i]
    ensures Split(Join(parts, sep), sep) == parts
  {
    if |parts| == 1 {
      SplitPiece(parts[0], sep);
    } else {
      SplitJoin(parts[1..], sep);
      SplitAfterPiece(parts[0], Join(parts[1..], sep), sep);
      assert [parts[0]] + parts[1..] == parts;
    }
  }

  /** Filtering a concatenation filters each part: kept entries stay in their order. */
  lemma {:induction false} DropEmptyConcat(a: seq<string>, b: seq<string>)
    ensures DropEmpty(a + b) == DropEmpty(a) + DropEmpty(b)
  {
    if a != [] {
      DropEmptyConcat(a[1..], b);
      assert (a + b)[1..] == a[1..] + b;
    } else {
      assert a + b == b;
    }
  }

  /** `parts.map(t => t.trim())` */
  function TrimEach(parts: seq<string>): (r: seq<string>)
    ensures |r| == |parts|
    ensures forall i :: 0 <= i < |r| ==> r[i] == Trim(parts[i]) && Trimmed(r[i])
  {
    seq(|parts|, i requires 0 <= i < |parts| => Trim(parts[i]))
  }

  /** `parts.filter(t => t.length > 0)` */
  function DropEmpty(parts: seq<string>): (r: seq<string>)
    ensures |r| <= |parts|
    ensures forall i :: 0 <= i < |r| ==> r[i] != [] && r[i] in parts
    ensures forall x :: x != [] ==> multiset(r)[x] == multiset(parts)[x]
  {
    if parts == [] then []
    else
      var rest := DropEmpty(parts[1..]);
      assert parts == [parts[0]] + parts[1..];
      if parts[0] == [] then rest
      else
        var r := [parts[0]] + rest;
        assert forall i :: 0 < i < |r| ==> r[i] == rest[i - 1];
        r
  }

  /** A list without empty strings passes the filter unchanged. */
  lemma {:induction false} DropEmptyKeepsAll(parts: seq<string>)
    requires forall i :: 0 <= i < |parts| ==> parts[i] != []
    ensures DropEmpty(parts) == parts
  {
    if parts != [] {
      DropEmptyKeepsAll(parts[1..]);
      assert [parts[0]] + parts[1..] == parts;
    }
  }

  /** The technology field of the project form: split on ',', trim every token, drop the
      empty ones. Every entry is non-empty and trimmed, and there is at most one entry per
      comma-separated piece. */
  function ParseTechnologies(field: string): (r: seq<string>)
    ensures |r| <= Count(field, ',') + 1
    ensures forall i :: 0 <= i < |r| ==> r[i] != [] && Trimmed(r[i])
  {
    var pieces := Split(field, ',');
    var trimmed := TrimEach(pieces);
    var r := DropEmpty(trimmed);
    assert forall i :: 0 <= i < |r| ==> r[i] in trimmed;
    r
  }

  /** Token order and duplicates survive parsing: joining non-empty, trimmed, comma-free
      tokens with ',' and parsing the result gives the very same tokens back. */
  lemma {:induction false} ParseJoin(tokens: seq<string>)
    requires forall i :: 0 <= i < |tokens| ==> tokens[i] != [] && Trimmed(tokens[i]) && ',' !in tokens[i]
    ensures ParseTechnologies(Join(tokens, ',')) == tokens
  {
    if tokens == [] {
      assert Split([], ',') == [[]];
      assert Trim([]) == [];
    } else {
      SplitJoin(tokens, ',');
      var trimmed := TrimEach(tokens);
      forall i | 0 <= i < |tokens| ensures trimmed[i] == tokens[i] {
        TrimOfTrimmed(tokens[i]);
      }
      assert trimmed == tokens;
      DropEmptyKeepsAll(tokens);
    }
  }

  /** A one-character token, with or without one space before it, trims to itself. */
  lemma TrimToken(c: char)
    requires !IsSpace(c)
    ensures Trim([c]) == [c] && Trim([' ', c]) == [c]
  {
    TrimOfTrimmed([c]);
    LeadingSpaceAt([' ', c], 1);
    assert TrimStart([' ', c]) == [c];
  }

  /** For any field, cut at its commas into `pieces`, the parser keeps exactly the non-empty
      trimmed pieces, in their order and with their duplicates. */
  lemma ParsePieces(pieces: seq<string>)
    requires pieces != [] && forall i :: 0 <= i < |pieces| ==> ',' !in pieces[i]
    ensures ParseTechnologies(Join(pieces, ',')) == DropEmpty(TrimEach(pieces))
  {
    SplitJoin(pieces, ',');
  }

  /** "A, B, A" parses to ["A", "B", "A"]: the spaces go, the duplicate stays. */
  lemma ParseExample()
    ensures ParseTechnologies("A, B, A") == ["A", "B", "A"]
  {
    ExampleSplit();
    ExampleTrim();
    ExampleDrop();
  }

  lemma ExampleDrop()
    ensures DropEmpty(["A", "B", "A"]) == ["A", "B", "A"]
  {
    DropEmptyKeepsAll(["A", "B", "A"]);
  }

  lemma ExampleSplit()
    ensures Split("A, B, A", ',') == ["A", " B", " A"]
  {
    var pieces := ["A", " B", " A"];
    assert Join(pieces[2..], ',') == " A";
    assert Join(pieces[1..], ',') == " B" + "," + " A";
    assert Join(pieces, ',') == "A, B, A";
    SplitJoin(pieces, ',');
  }

  lemma ExampleTrim()
    ensures TrimEach(["A", " B", " A"]) == ["A", "B", "A"]
  {
    TrimThree('A', 'B');
  }

  lemma TrimThree(a: char, b: char)
    requires !IsSpace(a) && !IsSpace(b)
    ensures TrimEach([[a], [' ', b], [' ', a]]) == [[a], [b], [a]]
  {
    TrimToken(a);
    TrimToken(b);
  }

  /** `s.length` in JavaScript: the number of UTF-16 code units, two for every code point
      beyond the Basic Multilingual Plane (a surrogate pair), one for every other. */
  function Utf16Length(s: string): (n: nat)
    ensures |s| <= n <= 2 * |s|
    ensures n == |s| <==> forall i :: 0 <= i < |s| ==> s[i] as int < 0x10000
  {
    if s == [] then 0
    else
      var rest := Utf16Length(s[1..]);
      assert forall i :: 1 <= i < |s| ==> s[i] == s[1..][i - 1];
      (if s[0] as int >= 0x10000 then 2 else 1) + rest
  }

  /** The ASCII part of `toLowerCase`. */
  function LowerChar(c: char): char {
    if 'A' <= c <= 'Z' then (c as int + 32) as char else c
  }

  function ToLower(s: string): (r: string)
    ensures |r| == |s|
    ensures forall i :: 0 <= i < |s| ==> r[i] == LowerChar(s[i])
  {
    seq(|s|, i requires 0 <= i < |s| => LowerChar(s[i]))
  }

  lemma {:induction false} ToLowerConcat(a: string, b: string)
    ensures ToLower(a + b) == ToLower(a) + ToLower(b)
  {
  }

  /** `hay.includes(needle)` */
  predicate Contains(hay: string, needle: string)
    ensures Contains(hay, needle) ==> |needle| <= |hay|
    ensures needle == [] ==> Contains(hay, needle)
  {
    assert needle == [] ==> OccursAt(hay, needle, 0);
    exists i | 0 <= i <= |hay| :: OccursAt(hay, needle, i)
  }

  predicate OccursAt(hay: string, needle: string, i: int) {
    0 <= i <= |hay| - |needle| && hay[i..i + |needle|] == needle
  }

  /** An occurrence starts with the needle's first character. */
  lemma OccursAtHead(hay: string, needle: string, i: int)
    requires needle != [] && OccursAt(hay, needle, i)
    ensures i + |needle| <= |hay| && hay[i] == needle[0]
  {
    assert hay[i..i + |needle|][0] == hay[i];
  }

  /** Anything found inside a part of a string is found inside the whole. */
  lemma {:induction false} ContainsInMiddle(a: string, b: string, c: string, needle: string)
    requires Contains(b, needle)
    ensures Contains(a + b + c, needle)
  {
    var i :| OccursAt(b, needle, i);
    assert OccursAt(b, needle, i);
    assert 0 <= i;
    var s := a + b + c;
    assert s[|a| + i..|a| + i + |needle|] == needle;
    assert OccursAt(s, needle, |a| + i);
  }
}
