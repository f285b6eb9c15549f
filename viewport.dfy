/** Viewport classification: the `utils` width predicates and the breakpoint detector. The
    window width is passed in as a number. */
module Viewport {
  import opened Wrappers

  /** `utils.isMobile`: the mobile widths are those of the breakpoints 'xs' and 'sm' and the
      first width of 'md'; a wider window is at breakpoint 'md' or above. */
  predicate IsMobile(width: int)
    ensures IsMobile(width) ==> BreakpointRank(width) <= 2
    ensures !IsMobile(width) ==> BreakpointRank(width) >= 2
  {
    BreakpointIsLargestFit(width);
    var k := BreakpointRank(width);
    assert width > 768 ==> Breakpoints[2].1 <= width && Breakpoints[k].1 >= 768;
    width <= 768
  }

  /** `utils.isDesktop`: never a mobile width. */
  predicate IsDesktop(width: int)
    ensures IsDesktop(width) ==> !IsMobile(width)
  {
    width > 1024
  }

  /** `utils.isTablet`: the widths between the mobile and the desktop ones. */
  predicate IsTablet(width: int)
    ensures IsTablet(width) <==> !IsMobile(width) && !IsDesktop(width)
  {
    768 < width <= 1024
  }

  /** Every width falls in exactly one class. */
  lemma ExactlyOneClass(width: int)
    ensures IsMobile(width) || IsTablet(width) || IsDesktop(width)
    ensures !(IsMobile(width) && IsTablet(width))
    ensures !(IsMobile(width) && IsDesktop(width))
    ensures !(IsTablet(width) && IsDesktop(width))
  {
  }

  /** The breakpoint table, in the order its entries are declared: a name and the smallest
      width it applies to. */
  const Breakpoints: seq<(string, int)> :=
    [("xs", 0), ("sm", 576), ("md", 768), ("lg", 992), ("xl", 1200), ("xxl", 1400)]

  /** The table's minimum widths strictly increase. */
  predicate Ascending(table: seq<(string, int)>) {
    forall i, j :: 0 <= i < j < |table| ==> table[i].1 < table[j].1
  }

  /** The loop over the reversed entries: the index of the last entry (the first one met when
      scanning from the end) whose minimum is at most `width`, if there is one. */
  function ScanFromLargest(table: seq<(string, int)>, width: int): (r: Option<nat>)
    ensures r.Some? ==> r.value < |table| && table[r.value].1 <= width
    ensures r.Some? ==> forall j :: r.value < j < |table| ==> table[j].1 > width
    ensures r.None? <==> forall j :: 0 <= j < |table| ==> table[j].1 > width
  {
    if table == [] then None
    else if width >= table[|table| - 1].1 then Some(|table| - 1)
    else ScanFromLargest(table[..|table| - 1], width)
  }

  /** `getCurrentBreakpoint`, with 'xs' as the fallback when no entry fits: the name of a
      table entry that applies to the width (for a non-negative width) and has the largest
      minimum among those that apply. */
  function CurrentBreakpoint(width: int): (name: string)
    ensures exists k :: (
      && 0 <= k < |Breakpoints| && Breakpoints[k].0 == name
      && (width >= 0 ==> Breakpoints[k].1 <= width)
      && forall j :: 0 <= j < |Breakpoints| && Breakpoints[j].1 <= width ==> Breakpoints[j].1 <= Breakpoints[k].1)
  {
    assert Ascending(Breakpoints);
    ScanPicksLargestFit(Breakpoints, width);
    match ScanFromLargest(Breakpoints, width)
    case Some(k) => Breakpoints[k].0
    case None => assert Breakpoints[0].0 == "xs"; "xs"
  }

  /** Position in the table of the breakpoint `CurrentBreakpoint` names. */
  function BreakpointRank(width: int): (k: nat)
    ensures k < |Breakpoints| && Breakpoints[k].0 == CurrentBreakpoint(width)
  {
    match ScanFromLargest(Breakpoints, width)
    case Some(k) => k
    case None => 0
  }

  /** On an ascending table the scan picks the entry with the largest minimum that is at most
      `width`. */
  lemma {:induction false} ScanPicksLargestFit(table: seq<(string, int)>, width: int)
    requires Ascending(table)
    ensures var r := ScanFromLargest(table, width);
      r.Some? ==> forall j :: 0 <= j < |table| && table[j].1 <= width ==> table[j].1 <= table[r.value].1
  {
  }

  /** A wider window never gets a smaller breakpoint. */
  lemma {:induction false} BreakpointMonotone(narrow: int, wide: int)
    requires narrow <= wide
    ensures BreakpointRank(narrow) <= BreakpointRank(wide)
  {
    var rn, rw := ScanFromLargest(Breakpoints, narrow), ScanFromLargest(Breakpoints, wide);
    if rn.Some? {
      assert Breakpoints[rn.value].1 <= wide;
      assert rw.Some?;
    }
  }

  /** The chosen breakpoint applies to the width (or the width is negative and the fallback
      'xs' is used), and no entry with a larger minimum does. */
  lemma {:induction false} BreakpointIsLargestFit(width: int)
    ensures var k := BreakpointRank(width);
      (width >= 0 ==> Breakpoints[k].1 <= width)
      && forall j :: 0 <= j < |Breakpoints| && Breakpoints[j].1 <= width ==> Breakpoints[j].1 <= Breakpoints[k].1
  {
    assert Ascending(Breakpoints);
    ScanPicksLargestFit(Breakpoints, width);
  }

  /** Any width below 576, negative widths included, is 'xs'. */
  lemma {:induction false} NarrowIsXs(width: int)
    requires width < 576
    ensures CurrentBreakpoint(width) == "xs"
  {
    var r := ScanFromLargest(Breakpoints, width);
    if r.Some? {
      assert r.value == 0;
    }
  }
}
