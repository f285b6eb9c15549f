/** Section navigation: next and previous section, the Ctrl/Meta + digit shortcut and the
    horizontal-swipe decision. Scrolling itself is not modelled; each operation yields the
    section it would scroll to, if any. */
module Navigation {
  import opened Wrappers
  import Text
  import Viewport

  /** The page's sections, in page order. */
  const Sections: seq<string> := ["home", "about", "skills", "projects", "contact", "resume"]

  /** `Array.prototype.indexOf`: the first position of `x`, or -1. */
  function IndexOf(s: seq<string>, x: string): (r: int)
    ensures -1 <= r < |s|
    ensures r >= 0 ==> s[r] == x && forall j :: 0 <= j < r ==> s[j] != x
    ensures r == -1 <==> x !in s
  {
    if s == [] then -1
    else if s[0] == x then 0
    else
      var r := IndexOf(s[1..], x);
      assert r >= 0 ==> s[1..][r] == x;
      if r == -1 then -1 else r + 1
  }

  lemma SectionsDistinct()
    ensures forall i, j :: 0 <= i < j < |Sections| ==> Sections[i] != Sections[j]
  {
    assert forall i, j :: 0 <= i < j < |Sections| ==> Sections[i][0] != Sections[j][0];
  }

  lemma IndexOfSection(i: int)
    requires 0 <= i < |Sections|
    ensures IndexOf(Sections, Sections[i]) == i
  {
    SectionsDistinct();
  }

  /** `navigateToNextSection`: the section after the current one. An unknown current section
      has index -1, so the "next" one is the first section. */
  function NextSection(current: string): (r: Option<string>)
    ensures r.None? <==> current == Sections[|Sections| - 1]
    ensures r.Some? ==> IndexOf(Sections, r.value) == IndexOf(Sections, current) + 1
  {
    var i := IndexOf(Sections, current);
    if i < |Sections| - 1 then
      IndexOfSection(i + 1);
      Some(Sections[i + 1])
    else
      None
  }

  /** `navigateToPrevSection`: the section before the current one; none for the first
      section or an unknown one. */
  function PrevSection(current: string): (r: Option<string>)
    ensures r.Some? <==> current in Sections && current != Sections[0]
    ensures r.Some? ==> IndexOf(Sections, r.value) == IndexOf(Sections, current) - 1
  {
    var i := IndexOf(Sections, current);
    SectionsDistinct();
    if i > 0 then
      IndexOfSection(i - 1);
      Some(Sections[i - 1])
    else
      None
  }

  /** Going forward then back (or back then forward) from a known section returns to it. */
  lemma {:induction false} NextPrevInverse(current: string)
    requires current in Sections
    ensures NextSection(current).Some? ==> PrevSection(NextSection(current).value) == Some(current)
    ensures PrevSection(current).Some? ==> NextSection(PrevSection(current).value) == Some(current)
  {
    var i := IndexOf(Sections, current);
    if i + 1 < |Sections| { IndexOfSection(i + 1); }
    if i > 0 { IndexOfSection(i - 1); }
  }

  /** Forward and back stop at the ends; an unknown section goes forward to 'home' and
      nowhere backward. */
  lemma {:induction false} NavigationEnds(unknown: string)
    requires unknown !in Sections
    ensures NextSection("resume") == None && PrevSection("home") == None
    ensures NextSection(unknown) == Some("home") && PrevSection(unknown) == None
  {
    IndexOfSection(0);
    IndexOfSection(5);
  }

  // ---------------------------------------------------------------------------------------
  // parseInt, as applied to a key name

  /** The value of `c` as a digit in base 10 or 16, if it is one. */
  function DigitValue(c: char, radix: nat): (r: Option<nat>)
    ensures r.Some? ==> r.value < radix
  {
    if '0' <= c <= '9' && (c as int - '0' as int) < radix then Some(c as int - '0' as int)
    else if radix == 16 && 'a' <= c <= 'f' then Some(c as int - 'a' as int + 10)
    else if radix == 16 && 'A' <= c <= 'F' then Some(c as int - 'A' as int + 10)
    else None
  }

  /** Length of the longest prefix of `s` made of digits. */
  function DigitRun(s: string, radix: nat): (n: nat)
    ensures n <= |s|
    ensures forall i :: 0 <= i < n ==> DigitValue(s[i], radix).Some?
    ensures n < |s| ==> DigitValue(s[n], radix).None?
  {
    if s == [] || DigitValue(s[0], radix).None? then 0
    else
      var n := DigitRun(s[1..], radix);
      assert forall i :: 1 <= i < n + 1 ==> s[i] == s[1..][i - 1];
      n + 1
  }

  /** The number an all-digit string denotes. */
  function DigitsValue(s: string, radix: nat): nat
    requires forall i :: 0 <= i < |s| ==> DigitValue(s[i], radix).Some?
  {
    if s == [] then 0
    else DigitsValue(s[..|s| - 1], radix) * radix + DigitValue(s[|s| - 1], radix).value
  }

  /** A '-' right after the leading white space. */
  predicate Negative(s: string) {
    var t := Text.TrimStart(s);
    t != [] && t[0] == '-'
  }

  /** What `parseInt` reads after the leading white space and the optional sign. */
  function Unsigned(s: string): string {
    var t := Text.TrimStart(s);
    if t != [] && (t[0] == '-' || t[0] == '+') then t[1..] else t
  }

  /** A "0x" or "0X" prefix, which switches `parseInt` to base 16. */
  predicate HexPrefixed(u: string) {
    |u| >= 2 && u[0] == '0' && (u[1] == 'x' || u[1] == 'X')
  }

  function Radix(s: string): nat {
    if HexPrefixed(Unsigned(s)) then 16 else 10
  }

  /** The text whose leading digits `parseInt` reads: after white space, sign and prefix. */
  function Numeral(s: string): string {
    var u := Unsigned(s);
    if HexPrefixed(u) then u[2..] else u
  }

  /** `parseInt(s)` with no radix: leading white space, an optional sign, a "0x" prefix for
      base 16, then the longest run of digits; no digits at all gives NaN (`None`). */
  function ParseInt(s: string): (r: Option<int>)
    ensures r.Some? <==> DigitRun(Numeral(s), Radix(s)) > 0
    ensures r.Some? ==> Text.TrimStart(s) != []
    ensures r.Some? && r.value < 0 ==> Negative(s)
  {
    var radix, v := Radix(s), Numeral(s);
    var n := DigitRun(v, radix);
    if n == 0 then None
    else
      var m: int := DigitsValue(v[..n], radix);
      Some(if Negative(s) then -m else m)
  }

  predicate Decimal(s: string) {
    s != [] && forall i :: 0 <= i < |s| ==> '0' <= s[i] <= '9'
  }

  /** Once white space and sign are gone, a decimal numeral is read whole, in base 10. */
  lemma DecimalNumeral(k: string, s: string)
    requires Decimal(s) && Unsigned(k) == s
    ensures forall i :: 0 <= i < |s| ==> DigitValue(s[i], 10).Some?
    ensures Radix(k) == 10 && Numeral(k) == s && DigitRun(s, 10) == |s|
  {
    assert forall i :: 0 <= i < |s| ==> DigitValue(s[i], 10).Some?;
    assert !HexPrefixed(s);
  }

  /** A non-empty string of decimal digits parses to the number it denotes. */
  lemma DecimalKey(s: string)
    requires Decimal(s)
    ensures forall i :: 0 <= i < |s| ==> DigitValue(s[i], 10).Some?
    ensures ParseInt(s) == Some(DigitsValue(s, 10))
  {
    StartsUntrimmed(s);
    assert Unsigned(s) == s;
    ParseDecimal(s);
    assert !Negative(s);
  }

  /** When a decimal numeral follows the white space and the sign, `parseInt` reads all of
      it, negated after a '-'. */
  lemma ParseDecimal(k: string)
    requires Decimal(Unsigned(k))
    ensures forall i :: 0 <= i < |Unsigned(k)| ==> DigitValue(Unsigned(k)[i], 10).Some?
    ensures var m := DigitsValue(Unsigned(k), 10);
      ParseInt(k) == Some(if Negative(k) then -(m as int) else m)
  {
    var s := Unsigned(k);
    DecimalNumeral(k, s);
    assert s[..|s|] == s;
  }

  /** A sign in front of the digits gives the number or its negation. */
  lemma SignedDecimalKey(k: string)
    requires |k| >= 2 && (k[0] == '+' || k[0] == '-') && Decimal(k[1..])
    ensures forall i :: 1 <= i < |k| ==> DigitValue(k[i], 10).Some?
    ensures var m := DigitsValue(k[1..], 10);
      ParseInt(k) == Some(if k[0] == '-' then -(m as int) else m)
  {
    assert forall i :: 1 <= i < |k| ==> k[i] == k[1..][i - 1];
    StartsUntrimmed(k);
    assert Unsigned(k) == k[1..];
    ParseDecimal(k);
  }

  /** A string that does not start with white space loses nothing to `TrimStart`. */
  lemma StartsUntrimmed(s: string)
    requires s != [] && !Text.IsSpace(s[0])
    ensures Text.TrimStart(s) == s
  {
    Text.LeadingSpaceAt(s, 0);
  }

  /** The key-down shortcut on the number `parseInt` read from the key: with Ctrl or Meta
      held, a number k from 1 to 6 selects section k-1; anything else selects nothing. */
  function ShortcutTarget(ctrl: bool, meta: bool, number: Option<int>): (r: Option<string>)
    ensures r.Some? <==> (ctrl || meta) && number.Some? && 1 <= number.value <= |Sections|
    ensures r.Some? ==> r.value in Sections && IndexOf(Sections, r.value) == number.value - 1
  {
    if ctrl || meta then
      match number
      case Some(k) =>
        if 1 <= k <= |Sections| then
          IndexOfSection(k - 1);
          Some(Sections[k - 1])
        else None
      case None => None
    else None
  }

  /** The key-down shortcut for the key's name. */
  function ShortcutSection(ctrl: bool, meta: bool, key: string): (r: Option<string>)
    ensures r.Some? <==> (ctrl || meta) && ParseInt(key).Some? && 1 <= ParseInt(key).value <= |Sections|
    ensures r.Some? ==> IndexOf(Sections, r.value) == ParseInt(key).value - 1
  {
    ShortcutTarget(ctrl, meta, ParseInt(key))
  }

  /** The shortcut listener is installed only when the window is wider than the mobile limit
      at start-up; on a narrow start no key selects anything, even after a resize. */
  function InstalledShortcut(startWidth: int, ctrl: bool, meta: bool, key: string): (r: Option<string>)
    ensures Viewport.IsMobile(startWidth) ==> r.None?
    ensures !Viewport.IsMobile(startWidth) ==> r == ShortcutSection(ctrl, meta, key)
  {
    if Viewport.IsMobile(startWidth) then None else ShortcutSection(ctrl, meta, key)
  }

  /** A single digit key parses to its digit. */
  lemma DigitKey(d: nat)
    requires d <= 9
    ensures ParseInt([('0' as int + d) as char]) == Some(d)
  {
    var c := ('0' as int + d) as char;
    var s := [c];
    assert DigitValue(c, 10) == Some(d);
    assert !Text.IsSpace(c);
    assert Text.TrimStart(s) == s;
    assert DigitRun(s[1..], 10) == 0;
    assert DigitRun(s, 10) == 1;
    assert s[..1] == s;
    assert s[..0] == [];
    assert DigitsValue(s, 10) == d;
  }

  /** Ctrl+1 .. Ctrl+6 reach the six sections in page order; Ctrl+0 and Ctrl+7 .. Ctrl+9
      reach none. */
  lemma DigitShortcuts(d: nat)
    requires d <= 9
    ensures ShortcutSection(true, false, [('0' as int + d) as char])
      == if 1 <= d <= 6 then Some(Sections[d - 1]) else None
  {
    DigitKey(d);
  }

  /** Ctrl+digit on a page opened wider than 768 pixels reaches the digit's section; on a page
      opened at 768 pixels or less no key reaches anything. */
  lemma InstalledDigitShortcuts(startWidth: int, d: nat, key: string)
    requires d <= 9
    ensures startWidth > 768 ==>
              InstalledShortcut(startWidth, true, false, [('0' as int + d) as char])
              == if 1 <= d <= 6 then Some(Sections[d - 1]) else None
    ensures startWidth <= 768 ==> InstalledShortcut(startWidth, true, true, key) == None
  {
    DigitShortcuts(d);
  }

  // ---------------------------------------------------------------------------------------
  // Swipe

  datatype Direction = Forward | Backward

  function Abs(x: real): real { if x < 0.0 then -x else x }

  /** The touch-end handler: a swipe quicker than 500 ms whose horizontal travel beats its
      vertical travel and 50 pixels moves forward when the finger went left (start x minus end
      x is positive) and backward when it went right. */
  function SwipeDirection(diffX: real, diffY: real, elapsed: int): (r: Option<Direction>)
    ensures r.Some? <==> elapsed <= 500 && Abs(diffX) > 50.0 && Abs(diffX) > Abs(diffY)
    ensures r.Some? ==> (r.value == Forward <==> diffX > 0.0)
  {
    if elapsed > 500 then None
    else if Abs(diffX) > Abs(diffY) && Abs(diffX) > 50.0 then
      Some(if diffX > 0.0 then Forward else Backward)
    else None
  }

  function Flip(d: Direction): Direction {
    match d
    case Forward => Backward
    case Backward => Forward
  }

  /** Mirroring a swipe left to right flips its direction and changes nothing else. */
  lemma SwipeMirror(diffX: real, diffY: real, elapsed: int)
    ensures SwipeDirection(-diffX, diffY, elapsed).Some? == SwipeDirection(diffX, diffY, elapsed).Some?
    ensures SwipeDirection(diffX, diffY, elapsed).Some? ==>
      SwipeDirection(-diffX, diffY, elapsed).value == Flip(SwipeDirection(diffX, diffY, elapsed).value)
  {
  }

  /** The whole touch-end handler: a touch whose start coordinates include a 0 is ignored, since
      0 is falsy; otherwise the swipe is decided on start minus end. */
  function TouchSwipe(startX: real, startY: real, endX: real, endY: real, startTime: int, endTime: int): (r: Option<Direction>)
    ensures startX == 0.0 || startY == 0.0 ==> r.None?
    ensures startX != 0.0 && startY != 0.0 ==> r == SwipeDirection(startX - endX, startY - endY, endTime - startTime)
  {
    if startX == 0.0 || startY == 0.0 then None
    else SwipeDirection(startX - endX, startY - endY, endTime - startTime)
  }

  /** A quick, long, horizontal swipe that starts at the left edge of the screen is still
      ignored. */
  lemma LeftEdgeSwipeIgnored(startY: real, endX: real)
    requires startY != 0.0 && endX >= 100.0
    ensures SwipeDirection(0.0 - endX, startY - startY, 100).Some?
    ensures TouchSwipe(0.0, startY, endX, startY, 0, 100).None?
  {
  }

  /** Where a swipe takes the page from `current`: a forward swipe goes to the next section,
      a backward one to the previous section, and anything else nowhere. */
  function SwipeTarget(current: string, diffX: real, diffY: real, elapsed: int): (r: Option<string>)
    ensures SwipeDirection(diffX, diffY, elapsed) == Some(Forward) ==> r == NextSection(current)
    ensures SwipeDirection(diffX, diffY, elapsed) == Some(Backward) ==> r == PrevSection(current)
    ensures SwipeDirection(diffX, diffY, elapsed).None? ==> r.None?
    ensures r.Some? ==> r.value in Sections && r.value != current
  {
    match SwipeDirection(diffX, diffY, elapsed)
    case Some(Forward) => NextSection(current)
    case Some(Backward) => PrevSection(current)
    case None => None
  }

  /** A swipe one way and then the mirrored swipe brings the page back to a known section. */
  lemma {:induction false} SwipeBackAndForth(current: string, diffX: real, diffY: real, elapsed: int)
    requires current in Sections
    requires SwipeTarget(current, diffX, diffY, elapsed).Some?
    ensures SwipeTarget(SwipeTarget(current, diffX, diffY, elapsed).value, -diffX, diffY, elapsed) == Some(current)
  {
    NextPrevInverse(current);
    SwipeMirror(diffX, diffY, elapsed);
    var target := SwipeTarget(current, diffX, diffY, elapsed).value;
    match SwipeDirection(diffX, diffY, elapsed)
    case Some(Forward) =>
      assert SwipeDirection(-diffX, diffY, elapsed) == Some(Backward);
      assert SwipeTarget(target, -diffX, diffY, elapsed) == PrevSection(target);
    case Some(Backward) =>
      assert SwipeDirection(-diffX, diffY, elapsed) == Some(Forward);
      assert SwipeTarget(target, -diffX, diffY, elapsed) == NextSection(target);
  }
}
