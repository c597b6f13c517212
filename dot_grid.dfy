/** The grid of dots and the per-second `update` of the page. The grid is an array of
    `DotCount` flags, one per dot element, `true` where the element carries the class "past". */
module DotGrid {
  import opened YearProgress

  /** The dot states for `filled` filled dots out of `n`: dot `i` is past when `i < filled`. */
  function PastMask(n: nat, filled: int): seq<bool> {
    seq(n, i => i < filled)
  }

  /** The number of dots shown as past. */
  function CountPast(s: seq<bool>): nat {
    if s == [] then 0 else CountPast(s[..|s| - 1]) + (if s[|s| - 1] then 1 else 0)
  }

  /** Exactly `filled` dots are past (`filled` clipped to the size of the grid), and they are
      the first ones. */
  lemma {:induction false} CountPastMask(n: nat, filled: int)
    ensures CountPast(PastMask(n, filled)) == if filled < 0 then 0 else if filled > n then n else filled
  {
    if n > 0 {
      assert PastMask(n, filled)[..n - 1] == PastMask(n - 1, filled);
      CountPastMask(n - 1, filled);
    }
  }

  /** Creates the grid: one new dot per day, none of them past yet. */
  method CreateDots() returns (dots: array<bool>)
    ensures fresh(dots)
    ensures dots[..] == PastMask(DotCount, 0)
  {
    dots := new bool[DotCount];
    for i := 0 to DotCount
      invariant forall k :: 0 <= k < i ==> !dots[k]
    {
      dots[i] := false;
    }
  }

  /** Sets each dot's "past" state to whether its index is below `filled`. */
  method RefreshDots(dots: array<bool>, filled: int)
    modifies dots
    ensures dots[..] == PastMask(dots.Length, filled)
  {
    for i := 0 to dots.Length
      invariant forall k :: 0 <= k < i ==> dots[k] == (k < filled)
    {
      dots[i] := i < filled;
    }
  }

  /** One run of `update` at instant `now`: the dots are refreshed from the progress at `now`,
      and the number of days left, for the subtitle, is returned. Afterwards exactly the dots
      of the days that have begun are past. */
  method Update(dots: array<bool>, now: int) returns (daysLeft: int)
    requires dots.Length == DotCount
    modifies dots
    ensures daysLeft == ProgressAt(now).daysLeft
    ensures dots[..] == PastMask(DotCount, ProgressAt(now).filled)
    ensures CountPast(dots[..]) == ProgressAt(now).filled
    ensures forall i :: 0 <= i < DotCount ==> (dots[i] <==> DotStart(i) <= now)
  {
    var p := ProgressAt(now);
    RefreshDots(dots, p.filled);
    daysLeft := p.daysLeft;
    CountPastMask(DotCount, p.filled);
    forall i | 0 <= i < DotCount
      ensures dots[i] <==> DotStart(i) <= now
    {
      assert dots[i] == dots[..][i];
      PastIffDayBegun(now, i);
    }
  }
}
