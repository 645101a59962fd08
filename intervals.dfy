/**
 * The censor ranges held by the receiver and the membership test run on every
 * tick: a playback time is censored when some range covers it, both bounds
 * included.
 */
module Intervals {

  /** One censor range `{start, end}` in playback seconds. Nothing checks that start <= end. */
  datatype Interval = Interval(start: real, end: real)

  /** The callback given to `some`: the time lies in the range, both ends included. */
  predicate Covers(o: Interval, t: real)
  {
    t >= o.start && t <= o.end
  }

  /** A range that can match at least one time. */
  predicate WellFormed(o: Interval)
  {
    o.start <= o.end
  }

  /** Time `t` is censored by `overlays` when at least one of them covers it. */
  predicate IsCensored(overlays: seq<Interval>, t: real)
  {
    exists i :: 0 <= i < |overlays| && Covers(overlays[i], t)
  }

  /**
   * `overlays.some(overlay => covers)`: a left-to-right scan that stops at the
   * first range covering `t`.
   */
  method ScanCensored(overlays: seq<Interval>, t: real) returns (censored: bool)
    ensures censored <==> IsCensored(overlays, t)
  {
    censored := false;
    var i := 0;
    while i < |overlays| && !censored
      invariant 0 <= i <= |overlays|
      invariant censored <==> exists j :: 0 <= j < i && Covers(overlays[j], t)
    {
      censored := Covers(overlays[i], t);
      i := i + 1;
    }
  }

  /** The ranges of `overlays` that can match some time, in their original order. */
  function WellFormedOnly(overlays: seq<Interval>): (r: seq<Interval>)
    ensures forall i :: 0 <= i < |r| ==> WellFormed(r[i])
    ensures multiset(r) <= multiset(overlays)
    ensures forall i :: 0 <= i < |overlays| && WellFormed(overlays[i]) ==> overlays[i] in r
  {
    if overlays == [] then []
    else
      assert overlays == [overlays[0]] + overlays[1..];
      if WellFormed(overlays[0]) then [overlays[0]] + WellFormedOnly(overlays[1..])
      else WellFormedOnly(overlays[1..])
  }

  /** Both ends of a well-formed range in the list are censored times. */
  lemma BoundsInclusive(overlays: seq<Interval>, i: int)
    requires 0 <= i < |overlays| && WellFormed(overlays[i])
    ensures IsCensored(overlays, overlays[i].start)
    ensures IsCensored(overlays, overlays[i].end)
  {
    assert Covers(overlays[i], overlays[i].start);
    assert Covers(overlays[i], overlays[i].end);
  }

  /** A time strictly outside every range is not censored; in particular the empty list censors nothing. */
  lemma OutsideEveryRange(overlays: seq<Interval>, t: real)
    requires forall i :: 0 <= i < |overlays| ==> t < overlays[i].start || t > overlays[i].end
    ensures !IsCensored(overlays, t)
  {
  }

  /** A range with start > end matches no time at all. */
  lemma MalformedNeverMatches(o: Interval, t: real)
    requires !WellFormed(o)
    ensures !Covers(o, t)
  {
  }

  /** Dropping the ranges with start > end never changes whether a time is censored. */
  lemma {:induction false} MalformedIrrelevant(overlays: seq<Interval>, t: real)
    ensures IsCensored(WellFormedOnly(overlays), t) <==> IsCensored(overlays, t)
  {
    if overlays != [] {
      MalformedIrrelevant(overlays[1..], t);
      var rest := WellFormedOnly(overlays[1..]);
      ConcatCensored([overlays[0]], overlays[1..], t);
      assert overlays == [overlays[0]] + overlays[1..];
      if WellFormed(overlays[0]) {
        ConcatCensored([overlays[0]], rest, t);
      } else {
        assert !Covers(overlays[0], t);
      }
    }
  }

  /** The list of one list followed by another censors exactly what either of them censors. */
  lemma ConcatCensored(a: seq<Interval>, b: seq<Interval>, t: real)
    ensures IsCensored(a + b, t) <==> IsCensored(a, t) || IsCensored(b, t)
  {
    if IsCensored(a + b, t) {
      var i :| 0 <= i < |a + b| && Covers((a + b)[i], t);
      if i >= |a| {
        assert Covers(b[i - |a|], t);
      }
    }
    if IsCensored(a, t) {
      var i :| 0 <= i < |a| && Covers(a[i], t);
      assert (a + b)[i] == a[i];
    }
    if IsCensored(b, t) {
      var j :| 0 <= j < |b| && Covers(b[j], t);
      assert (a + b)[|a| + j] == b[j];
    }
  }

  /** Every range of `a` also occurring in `b`: whatever `a` censors, `b` censors too. */
  lemma CensoredMonotone(a: seq<Interval>, b: seq<Interval>, t: real)
    requires forall i :: 0 <= i < |a| ==> a[i] in b
    ensures IsCensored(a, t) ==> IsCensored(b, t)
  {
    if IsCensored(a, t) {
      var i :| 0 <= i < |a| && Covers(a[i], t);
      var j :| 0 <= j < |b| && b[j] == a[i];
      assert Covers(b[j], t);
    }
  }

  /** Membership does not depend on the order of the ranges: any permutation censors the same times. */
  lemma OrderIrrelevant(a: seq<Interval>, b: seq<Interval>, t: real)
    requires multiset(a) == multiset(b)
    ensures IsCensored(a, t) <==> IsCensored(b, t)
  {
    forall i | 0 <= i < |a| ensures a[i] in b {
      assert a[i] in multiset(a);
    }
    forall j | 0 <= j < |b| ensures b[j] in a {
      assert b[j] in multiset(b);
    }
    CensoredMonotone(a, b, t);
    CensoredMonotone(b, a, t);
  }
}
