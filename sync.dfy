/**
 * One polling tick of the receiver as a pure transition on the overlay
 * element's `style.display`, and a run of ticks. The display value is a
 * two-state machine once it has been written ("flex" shown, "none" hidden);
 * before the first write it is whatever the page gave the element.
 */
module Sync {
  import opened Wrappers
  import opened Intervals

  const FLEX: string := "flex"
  const NONE: string := "none"

  /** A write to `style.display`, with the playback time it was made at; each one is logged. */
  datatype Write = Active(time: real) | Lifted(time: real)
  {
    /** The display value the write stores. */
    function Value(): string
    {
      if Active? then FLEX else NONE
    }
  }

  /**
   * What one tick finds: the media element's `currentTime` when there is a
   * media element, and whether the `censorOverlay` element exists.
   */
  datatype Probe = Probe(media: Option<real>, overlayFound: bool)

  /** The display after one tick and the write the tick made, if any. */
  datatype Outcome = Outcome(display: string, write: Option<Write>)

  /** The display after a run of ticks and the writes made, in order. */
  datatype Trace = Trace(display: string, writes: seq<Write>)

  /** The probe of a tick that sees both elements at time `t`. */
  function Seen(t: real): Probe
  {
    Probe(Some(t), true)
  }

  /** One tick: skip without a media element or an overlay element, otherwise write the target display if it differs. */
  function Tick(display: string, overlays: seq<Interval>, p: Probe): Outcome
  {
    if p.media.None? then Outcome(display, None)
    else if !p.overlayFound then Outcome(display, None)
    else
      var t := p.media.value;
      if IsCensored(overlays, t) then
        if display != FLEX then Outcome(FLEX, Some(Active(t))) else Outcome(display, None)
      else
        if display != NONE then Outcome(NONE, Some(Lifted(t))) else Outcome(display, None)
  }

  /** The writes of one tick, as a sequence. */
  function Writes(o: Outcome): seq<Write>
  {
    if o.write.Some? then [o.write.value] else []
  }

  /** Ticks run one after another with the same list of ranges. */
  function Run(display: string, overlays: seq<Interval>, probes: seq<Probe>): Trace
    decreases |probes|
  {
    if probes == [] then Trace(display, [])
    else
      var first := Tick(display, overlays, probes[0]);
      var rest := Run(first.display, overlays, probes[1..]);
      Trace(rest.display, Writes(first) + rest.writes)
  }

  /** A tick without a media element or without an overlay element changes nothing and writes nothing. */
  lemma TickSkipped(display: string, overlays: seq<Interval>, p: Probe)
    requires p.media.None? || !p.overlayFound
    ensures Tick(display, overlays, p) == Outcome(display, None)
  {
  }

  /**
   * A tick that sees both elements leaves "flex" when some range covers the time and
   * "none" otherwise, and writes (once) exactly when the display held something else.
   */
  lemma TickSettles(display: string, overlays: seq<Interval>, t: real)
    ensures var o := Tick(display, overlays, Seen(t));
      && (o.display == FLEX <==> exists i :: 0 <= i < |overlays| && Covers(overlays[i], t))
      && (o.display == FLEX || o.display == NONE)
      && (o.write.Some? <==> display != o.display)
      && (o.write.Some? ==> o.write.value.Value() == o.display && o.write.value.time == t)
  {
  }

  /** A second tick with the same probe and the same ranges writes nothing and keeps the display. */
  lemma TickIdempotent(display: string, overlays: seq<Interval>, p: Probe)
    ensures var o := Tick(display, overlays, p);
      Tick(o.display, overlays, p) == Outcome(o.display, None)
  {
  }

  /** Running `a` then `b` is the run of `a + b`. */
  lemma {:induction false} RunAppend(display: string, overlays: seq<Interval>, a: seq<Probe>, b: seq<Probe>)
    ensures var ra := Run(display, overlays, a);
      var rb := Run(ra.display, overlays, b);
      Run(display, overlays, a + b) == Trace(rb.display, ra.writes + rb.writes)
    decreases |a|
  {
    if a == [] {
      assert a + b == b;
    } else {
      var first := Tick(display, overlays, a[0]);
      assert (a + b)[0] == a[0];
      assert (a + b)[1..] == a[1..] + b;
      RunAppend(first.display, overlays, a[1..], b);
      var r1 := Run(first.display, overlays, a[1..]);
      var rb := Run(r1.display, overlays, b);
      assert Writes(first) + (r1.writes + rb.writes) == (Writes(first) + r1.writes) + rb.writes;
    }
  }

  /**
   * Every write of a run changes the display: the first differs from the
   * starting display, each later one stores the other value than the one
   * before, and the display at the end is the last value written.
   */
  lemma {:induction false} RunWritesOnlyOnChange(display: string, overlays: seq<Interval>, probes: seq<Probe>)
    ensures var r := Run(display, overlays, probes);
      && (r.writes == [] ==> r.display == display)
      && (r.writes != [] ==> r.writes[0].Value() != display)
      && (r.writes != [] ==> r.display == r.writes[|r.writes| - 1].Value())
      && (forall i :: 0 <= i < |r.writes| - 1 ==> r.writes[i].Value() != r.writes[i + 1].Value())
    decreases |probes|
  {
    if probes != [] {
      var first := Tick(display, overlays, probes[0]);
      RunWritesOnlyOnChange(first.display, overlays, probes[1..]);
      var rest := Run(first.display, overlays, probes[1..]);
      var r := Run(display, overlays, probes);
      assert r.writes == Writes(first) + rest.writes;
      if first.write.Some? {
        assert first.display == first.write.value.Value();
        forall i | 0 <= i < |r.writes| - 1
          ensures r.writes[i].Value() != r.writes[i + 1].Value()
        {
          if i > 0 {
            assert r.writes[i] == rest.writes[i - 1];
          }
        }
      }
    }
  }

  /** Repeating the last tick of a run adds no write and leaves the display as it was. */
  lemma RunRepeatIdempotent(display: string, overlays: seq<Interval>, probes: seq<Probe>, p: Probe)
    ensures Run(display, overlays, probes + [p, p]) == Run(display, overlays, probes + [p])
  {
    var ra := Run(display, overlays, probes);
    RunAppend(display, overlays, probes, [p, p]);
    RunAppend(display, overlays, probes, [p]);
    var o := Tick(ra.display, overlays, p);
    TickIdempotent(ra.display, overlays, p);
    assert [p, p][1..] == [p];
    assert Run(o.display, overlays, [p]) == Trace(o.display, []);
  }

  /** A run starting with probe `p` is that tick followed by the run of the rest. */
  lemma RunCons(display: string, overlays: seq<Interval>, p: Probe, probes: seq<Probe>)
    ensures var first := Tick(display, overlays, p);
      var rest := Run(first.display, overlays, probes);
      Run(display, overlays, [p] + probes) == Trace(rest.display, Writes(first) + rest.writes)
  {
    assert ([p] + probes)[0] == p;
    assert ([p] + probes)[1..] == probes;
  }

  /** A tick that cannot read the media or find the overlay, between two others, changes nothing in the run. */
  lemma SkippedTickInvisible(display: string, overlays: seq<Interval>, a: seq<Probe>, p: Probe, b: seq<Probe>)
    requires p.media.None? || !p.overlayFound
    ensures Run(display, overlays, a + [p] + b) == Run(display, overlays, a + b)
  {
    var ra := Run(display, overlays, a);
    assert a + [p] + b == a + ([p] + b);
    RunAppend(display, overlays, a, [p] + b);
    RunCons(ra.display, overlays, p, b);
    assert Writes(Tick(ra.display, overlays, p)) == [];
    RunAppend(display, overlays, a, b);
  }

  /** With no ranges at all, no run ever shows the overlay, and hides it at most once. */
  lemma {:induction false} EmptyNeverShows(display: string, probes: seq<Probe>)
    ensures var r := Run(display, [], probes);
      && (forall i :: 0 <= i < |r.writes| ==> r.writes[i].Lifted?)
      && |r.writes| <= 1
      && (r.writes != [] ==> display != NONE)
    decreases |probes|
  {
    if probes != [] {
      var first := Tick(display, [], probes[0]);
      EmptyNeverShows(first.display, probes[1..]);
      if first.write.Some? {
        assert first.display == NONE;
        var rest := Run(NONE, [], probes[1..]);
        assert rest.writes == [] by {
          RunWritesOnlyOnChange(NONE, [], probes[1..]);
        }
      }
    }
  }

  /** The two example ranges, 10..20 and 50..55. */
  function ExampleRanges(): seq<Interval>
  {
    [Interval(10.0, 20.0), Interval(50.0, 55.0)]
  }

  /** Ticks that see both elements at times 5, 10, 15, 20, 25, 52 and 60. */
  function ExampleProbes(): seq<Probe>
  {
    [Seen(5.0), Seen(10.0), Seen(15.0), Seen(20.0), Seen(25.0), Seen(52.0), Seen(60.0)]
  }

  /** Which of the example times the example ranges censor. */
  lemma ExampleCensored()
    ensures !IsCensored(ExampleRanges(), 5.0) && !IsCensored(ExampleRanges(), 25.0) && !IsCensored(ExampleRanges(), 60.0)
    ensures IsCensored(ExampleRanges(), 10.0) && IsCensored(ExampleRanges(), 15.0)
    ensures IsCensored(ExampleRanges(), 20.0) && IsCensored(ExampleRanges(), 52.0)
  {
    var ov := ExampleRanges();
    assert Covers(ov[0], 10.0) && Covers(ov[0], 15.0) && Covers(ov[0], 20.0) && Covers(ov[1], 52.0);
  }

  /** The tick at each example time, from the display the previous tick left. */
  lemma ExampleTicks()
    ensures Tick(NONE, ExampleRanges(), Seen(5.0)) == Outcome(NONE, None)
    ensures Tick(NONE, ExampleRanges(), Seen(10.0)) == Outcome(FLEX, Some(Active(10.0)))
    ensures Tick(FLEX, ExampleRanges(), Seen(15.0)) == Outcome(FLEX, None)
    ensures Tick(FLEX, ExampleRanges(), Seen(20.0)) == Outcome(FLEX, None)
    ensures Tick(FLEX, ExampleRanges(), Seen(25.0)) == Outcome(NONE, Some(Lifted(25.0)))
    ensures Tick(NONE, ExampleRanges(), Seen(52.0)) == Outcome(FLEX, Some(Active(52.0)))
    ensures Tick(FLEX, ExampleRanges(), Seen(60.0)) == Outcome(NONE, Some(Lifted(60.0)))
  {
    ExampleCensored();
    assert FLEX[0] != NONE[0];
  }

  /**
   * The example run: ranges 10..20 and 50..55, display "none" at first, ticks at
   * 5, 10, 15, 20, 25, 52 and 60 write only at 10 (shown), 25 (hidden), 52 (shown)
   * and 60 (hidden).
   */
  lemma ExampleRun()
    ensures Run(NONE, ExampleRanges(), ExampleProbes())
         == Trace(NONE, [Active(10.0), Lifted(25.0), Active(52.0), Lifted(60.0)])
  {
    var probes := ExampleProbes();
    var ov := ExampleRanges();
    ExampleTicks();
    assert probes[6..] == [probes[6]] + [];
    RunCons(FLEX, ov, probes[6], []);
    var t6 := Run(FLEX, ov, probes[6..]);
    assert t6.display == NONE && t6.writes == [Lifted(60.0)];
    assert probes[5..] == [probes[5]] + probes[6..];
    RunCons(NONE, ov, probes[5], probes[6..]);
    var t5 := Run(NONE, ov, probes[5..]);
    assert t5.display == NONE && t5.writes == [Active(52.0)] + t6.writes;
    assert probes[4..] == [probes[4]] + probes[5..];
    RunCons(FLEX, ov, probes[4], probes[5..]);
    var t4 := Run(FLEX, ov, probes[4..]);
    assert t4.display == NONE && t4.writes == [Lifted(25.0)] + t5.writes;
    assert probes[3..] == [probes[3]] + probes[4..];
    RunCons(FLEX, ov, probes[3], probes[4..]);
    var t3 := Run(FLEX, ov, probes[3..]);
    assert t3 == t4;
    assert probes[2..] == [probes[2]] + probes[3..];
    RunCons(FLEX, ov, probes[2], probes[3..]);
    var t2 := Run(FLEX, ov, probes[2..]);
    assert t2 == t3;
    assert probes[1..] == [probes[1]] + probes[2..];
    RunCons(NONE, ov, probes[1], probes[2..]);
    var t1 := Run(NONE, ov, probes[1..]);
    assert t1.display == NONE && t1.writes == [Active(10.0)] + t2.writes;
    assert probes == [probes[0]] + probes[1..];
    RunCons(NONE, ov, probes[0], probes[1..]);
  }
}
