/** The interactive decoder's worker run: every trial of the option product
    is adjusted, handed to the detector, and its text-bearing, non-duplicate
    detections are accepted, peeled and announced; a stop flag read at the
    start of each trial can end the run early. The run is a pure function
    from the image, the option lists, the opaque collaborators and the stop
    flag to the final state and its event trace. */
module Search {
  import opened Geometry
  import opened Raster
  import opened Transform
  import opened Enumeration
  import opened Detector

  /** What the worker emits, in emission order. */
  datatype Event =
    | GrayscalePreview(image: Image, boxes: seq<Quad>)
    | Progress(percent: int)
    | Cropped(image: Image, quad: Quad)
    | Reported(text: string, quad: Quad, contrast: real, brightness: int, blur: int)
    | Finished
    | Stopped

  predicate IsTerminal(e: Event)
  {
    e.Finished? || e.Stopped?
  }

  /** The duplicate threshold and the opaque collaborators: image operations,
      the detector, the polygon rasteriser and the bounding-rectangle crop. */
  datatype Engine = Engine(
    threshold: real,
    ops: Ops,
    detect: Image -> DetectorOutput,
    inside: (Quad, int, int) -> bool,
    crop: (Image, Quad) -> Image)

  /** The threshold used when none is given. */
  const DefaultThreshold: real := 50.0

  /** The worker's mutable fields: the working image, the accepted quads,
      the accepted (text, quad) pairs, the trial counter and the events
      emitted so far. */
  datatype State = State(image: Image, points: seq<Quad>, results: seq<Detection>, completed: nat, events: seq<Event>)

  function Start(img: Image): State
  {
    State(img, [], [], 0, [])
  }

  /** Progress after `completed` of `total` trials, as a whole percentage. */
  function Percent(completed: nat, total: nat): (r: int)
    requires 0 < total
    ensures completed <= total ==> 0 <= r <= 100
    ensures completed == total ==> r == 100
  {
    PercentRange(completed, total);
    (completed * 100) / total
  }

  /** The quotient behind Percent lies in 0..100 while completed <= total
      and is exactly 100 when completed == total. */
  lemma PercentRange(completed: nat, total: nat)
    requires 0 < total
    ensures completed <= total ==> 0 <= (completed * 100) / total <= 100
    ensures completed == total ==> (completed * 100) / total == 100
  {
    DivExact(100, total);
    assert total * 100 == 100 * total;
    if completed <= total {
      DivMonotone(completed * 100, total * 100, total);
    }
  }

  /** Dividing a multiple of t by t gives back the factor. */
  lemma DivExact(k: nat, t: int)
    requires 0 < t
    ensures (k * t) / t == k
  {
    var q, r := (k * t) / t, (k * t) % t;
    assert k * t == q * t + r && 0 <= r < t;
    assert (q - k) * t == -r;
    if q > k {
      MulAtLeast(q - k, t);
    } else if q < k {
      MulAtLeast(k - q, t);
    }
  }

  lemma MulAtLeast(x: int, t: int)
    requires 0 < t
    ensures 1 <= x ==> t <= x * t
  {
    if 1 <= x {
      assert x * t == t + (x - 1) * t;
    }
  }

  lemma DivMonotone(a: int, b: int, t: int)
    requires 0 <= a <= b && 0 < t
    ensures a / t <= b / t
  {
    var qa, qb := a / t, b / t;
    assert a == qa * t + a % t;
    assert b == qb * t + b % t;
    assert (qa - qb) * t == qa * t - qb * t;
    MulAtLeast(qa - qb, t);
  }

  /** Progress never goes down as trials complete. */
  lemma PercentMonotone(a: nat, b: nat, total: nat)
    requires 0 < total && a <= b
    ensures Percent(a, total) <= Percent(b, total)
  {
    DivMonotone(a * 100, b * 100, total);
  }

  /** The cropped-image event followed by the result event for each
      accepted detection, in acceptance order. */
  function Announce(accepted: seq<Detection>, p: Params, img: Image, crop: (Image, Quad) -> Image): (evs: seq<Event>)
    ensures |evs| == 2 * |accepted|
    decreases |accepted|
  {
    if |accepted| == 0 then []
    else
      var d := accepted[0];
      [Cropped(crop(img, d.quad), d.quad), Reported(d.text, d.quad, p.contrast, p.brightness, p.blur)]
      + Announce(accepted[1..], p, img, crop)
  }

  /** The grey preview emitted by the detector call when the trial converted
      to grey; it outlines every quad the detector returned. */
  function Preview(p: Params, adjusted: Image, quads: seq<Quad>): seq<Event>
  {
    if p.grayscale then [GrayscalePreview(adjusted, quads)] else []
  }

  /** Processes one detection of a trial: accept it when its text is
      non-empty and it is not near any quad accepted so far, then peel it
      and announce it with a crop of the working image. */
  function AcceptOne(st: State, d: Detection, p: Params, e: Engine): (r: State)
    ensures (d.text != "" && forall i :: 0 <= i < |st.points| ==> !Near(d.quad, st.points[i], e.threshold)) ==>
              r == st.(points := st.points + [d.quad], results := st.results + [d],
                       events := st.events + Announce([d], p, st.image, e.crop))
    ensures !(d.text != "" && forall i :: 0 <= i < |st.points| ==> !Near(d.quad, st.points[i], e.threshold)) ==> r == st
  {
    if d.text != "" && !IsDuplicate(st.points, d.quad, e.threshold) then
      var peeled := Peel(st.image, d.quad, e.inside);
      PeelLeavesImageUnchanged(st.image, d.quad, e.inside);
      st.(points := st.points + [d.quad], results := st.results + [d], image := peeled,
          events := st.events + [Cropped(e.crop(peeled, d.quad), d.quad), Reported(d.text, d.quad, p.contrast, p.brightness, p.blur)])
    else st
  }

  /** Processes a trial's zipped detections left to right. */
  function AcceptAll(st: State, dets: seq<Detection>, p: Params, e: Engine): (r: State)
    ensures r.completed == st.completed && r.image == st.image
    ensures |st.points| <= |r.points| && |st.results| <= |r.results|
    decreases |dets|
  {
    if |dets| == 0 then st else AcceptAll(AcceptOne(st, dets[0], p, e), dets[1..], p, e)
  }

  /** The events a trial emits before its detections are processed: the
      grey preview (only when the trial converts to grey), then the progress. */
  function Head(st: State, p: Params, total: nat, e: Engine): seq<Event>
    requires st.completed < total
  {
    var adjusted := Adjust(e.ops, st.image, p);
    Preview(p, adjusted, e.detect(adjusted).quads) + [Progress(Percent(st.completed + 1, total))]
  }

  /** The detector's texts and quads on the adjusted working image, zipped. */
  function Detections(st: State, p: Params, e: Engine): seq<Detection>
  {
    var out := e.detect(Adjust(e.ops, st.image, p));
    Zip(out.texts, out.quads)
  }

  /** The first half of a trial: count it and emit its head events. */
  function Probe(st: State, p: Params, total: nat, e: Engine): (r: State)
    requires st.completed < total
    ensures r.image == st.image && r.points == st.points && r.results == st.results
    ensures r.events == st.events + Head(st, p, total, e)
  {
    st.(completed := st.completed + 1, events := st.events + Head(st, p, total, e))
  }

  /** One trial: probe, then process the detections when there are texts. */
  function RunTrial(st: State, p: Params, total: nat, e: Engine): (r: State)
    requires st.completed < total
    ensures r.completed == st.completed + 1 && r.image == st.image
    ensures |st.points| <= |r.points| && |st.results| <= |r.results|
  {
    var out := e.detect(Adjust(e.ops, st.image, p));
    var st1 := Probe(st, p, total, e);
    if |out.texts| > 0 then AcceptAll(st1, Zip(out.texts, out.quads), p, e) else st1
  }

  /** Runs the trials `ps` back to back with no stop check. */
  function Sweep(st: State, ps: seq<Params>, total: nat, e: Engine): State
    requires st.completed + |ps| <= total
    decreases |ps|
  {
    if |ps| == 0 then st else Sweep(RunTrial(st, ps[0], total, e), ps[1..], total, e)
  }

  /** The first trial index in k..n-1 at whose start the stop flag is seen,
      or n when it is never seen there. */
  function FirstStop(stop: nat -> bool, k: nat, n: nat): (r: nat)
    requires k <= n
    ensures k <= r <= n
    ensures forall i :: k <= i < r ==> !stop(i)
    ensures r < n ==> stop(r)
    decreases n - k
  {
    if k == n then n else if stop(k) then k else FirstStop(stop, k + 1, n)
  }

  function Terminate(st: State, finished: bool): State
  {
    st.(events := st.events + [if finished then Finished else Stopped])
  }

  /** The loop from trial k on: check the flag, run the trial, continue;
      `finished` after the last trial, `stopped` when the flag is seen. */
  function RunFrom(trials: seq<Params>, k: nat, st: State, stop: nat -> bool, e: Engine): State
    requires k <= |trials| && st.completed == k
    decreases |trials| - k
  {
    if k == |trials| then Terminate(st, true)
    else if stop(k) then Terminate(st, false)
    else RunFrom(trials, k + 1, RunTrial(st, trials[k], |trials|, e), stop, e)
  }

  /** A whole run on `img` over the product of the option lists; `stop(k)`
      is the stop flag as read at the start of trial k. */
  function BruteForceDecode(img: Image, o: Options, e: Engine, stop: nat -> bool): State
  {
    RunFrom(Trials(o), 0, Start(img), stop, e)
  }

  // ---------------------------------------------------------------------
  // Invariants and trace facts

  /** The accepted lists line up, every accepted text is non-empty, and no
      two accepted quads are near each other. */
  ghost predicate Consistent(st: State, threshold: real)
  {
    && |st.points| == |st.results|
    && (forall i :: 0 <= i < |st.results| ==> st.results[i].quad == st.points[i] && st.results[i].text != "")
    && Separated(st.points, threshold)
  }

  /** No event of the trace is `finished` or `stopped`. */
  predicate NoTerminal(evs: seq<Event>)
    decreases |evs|
  {
    |evs| == 0 || (!IsTerminal(evs[0]) && NoTerminal(evs[1..]))
  }

  /** NoTerminal read position by position. */
  lemma {:induction false} NoTerminalAt(evs: seq<Event>)
    ensures NoTerminal(evs) <==> forall i :: 0 <= i < |evs| ==> !IsTerminal(evs[i])
    decreases |evs|
  {
    if |evs| != 0 {
      NoTerminalAt(evs[1..]);
      assert forall i :: 1 <= i < |evs| ==> evs[i] == evs[1..][i - 1];
    }
  }

  /** The progress values of a trace, in order. */
  function Progresses(evs: seq<Event>): seq<int>
    decreases |evs|
  {
    if |evs| == 0 then []
    else (if evs[0].Progress? then [evs[0].percent] else []) + Progresses(evs[1..])
  }

  /** The progress values of `n` trials that start after `from` completed ones. */
  function Ramp(from: nat, n: nat, total: nat): (r: seq<int>)
    requires from + n <= total
    ensures |r| == n
    decreases n
  {
    if n == 0 then [] else [Percent(from + 1, total)] + Ramp(from + 1, n - 1, total)
  }

  /** Element i of a ramp is the progress after from + i + 1 trials. */
  lemma {:induction false} RampAt(from: nat, n: nat, total: nat, i: nat)
    requires from + n <= total && i < n
    ensures Ramp(from, n, total)[i] == Percent(from + i + 1, total)
    decreases n
  {
    if i > 0 {
      RampAt(from + 1, n - 1, total, i - 1);
    }
  }


  lemma {:induction false} NoTerminalAppend(a: seq<Event>, b: seq<Event>)
    requires NoTerminal(a) && NoTerminal(b)
    ensures NoTerminal(a + b)
    decreases |a|
  {
    if |a| == 0 {
      assert a + b == b;
    } else {
      NoTerminalAppend(a[1..], b);
      assert (a + b)[1..] == a[1..] + b;
    }
  }


  lemma {:induction false} ProgressesAppend(a: seq<Event>, b: seq<Event>)
    ensures Progresses(a + b) == Progresses(a) + Progresses(b)
    decreases |a|
  {
    if |a| == 0 {
      assert a + b == b;
    } else {
      var ab := a + b;
      assert ab[0] == a[0];
      assert ab[1..] == a[1..] + b;
      ProgressesAppend(a[1..], b);
      assert Progresses(ab) == (if a[0].Progress? then [a[0].percent] else []) + Progresses(ab[1..]);
    }
  }

  lemma {:induction false} AnnounceHasNoProgressOrTerminal(acc: seq<Detection>, p: Params, img: Image, crop: (Image, Quad) -> Image)
    ensures Progresses(Announce(acc, p, img, crop)) == []
    ensures NoTerminal(Announce(acc, p, img, crop))
    decreases |acc|
  {
    if |acc| != 0 {
      var d := acc[0];
      var head := [Cropped(crop(img, d.quad), d.quad), Reported(d.text, d.quad, p.contrast, p.brightness, p.blur)];
      AnnounceHasNoProgressOrTerminal(acc[1..], p, img, crop);
      ProgressesAppend(head, Announce(acc[1..], p, img, crop));
      assert NoTerminal(head);
      NoTerminalAppend(head, Announce(acc[1..], p, img, crop));
      assert Progresses(head) == [];
    }
  }

  lemma {:induction false} AnnounceAppend(a: seq<Detection>, b: seq<Detection>, p: Params, img: Image, crop: (Image, Quad) -> Image)
    ensures Announce(a + b, p, img, crop) == Announce(a, p, img, crop) + Announce(b, p, img, crop)
    decreases |a|
  {
    if |a| == 0 {
      assert a + b == b;
    } else {
      assert (a + b)[1..] == a[1..] + b;
      AnnounceAppend(a[1..], b, p, img, crop);
    }
  }

  /** A quad near some quad of a list is near some quad of any extension. */
  lemma DuplicateOfPrefix(ps: seq<Quad>, qs: seq<Quad>, q: Quad, threshold: real)
    requires ps <= qs && IsDuplicate(ps, q, threshold)
    ensures IsDuplicate(qs, q, threshold)
  {
    var i :| 0 <= i < |ps| && Near(q, ps[i], threshold);
    assert qs[i] == ps[i];
  }

  /** What a list that extends `x + [d]` holds past `x`: d, then the rest. */
  lemma SliceAfterSnoc<T>(x: seq<T>, d: T, y: seq<T>)
    requires x + [d] <= y
    ensures y[|x|..] == [d] + y[|x| + 1..]
  {
  }

  /** AcceptAll only appends: the accepted lists grow by the same amount,
      and the trace grows by a crop of the unmodified working image and a
      result for each newly accepted detection, in acceptance order. */
  lemma {:induction false} AcceptAllAppends(st: State, dets: seq<Detection>, p: Params, e: Engine)
    ensures var r := AcceptAll(st, dets, p, e);
      && st.points <= r.points && st.results <= r.results
      && |r.points| - |st.points| == |r.results| - |st.results|
      && r.events == st.events + Announce(r.results[|st.results|..], p, st.image, e.crop)
    decreases |dets|
  {
    var r := AcceptAll(st, dets, p, e);
    if |dets| == 0 {
      assert r.results[|st.results|..] == [];
    } else {
      var d := dets[0];
      var st1 := AcceptOne(st, d, p, e);
      AcceptAllAppends(st1, dets[1..], p, e);
      var later := r.results[|st1.results|..];
      if d.text != "" && !IsDuplicate(st.points, d.quad, e.threshold) {
        assert st1.results == st.results + [d] && st1.points == st.points + [d.quad];
        assert st1.image == st.image;
        assert st1.events == st.events + Announce([d], p, st.image, e.crop);
        SliceAfterSnoc(st.results, d, r.results);
        AnnounceAppend([d], later, p, st.image, e.crop);
      } else {
        assert r.results[|st.results|..] == later;
      }
    }
  }

  /** AcceptAll keeps the accepted lists consistent; in particular every
      pair of accepted quads stays at distance at least the threshold,
      including pairs accepted within the same trial. */
  lemma {:induction false} AcceptAllConsistent(st: State, dets: seq<Detection>, p: Params, e: Engine)
    requires Consistent(st, e.threshold)
    ensures Consistent(AcceptAll(st, dets, p, e), e.threshold)
    decreases |dets|
  {
    if |dets| != 0 {
      var d := dets[0];
      if d.text != "" && !IsDuplicate(st.points, d.quad, e.threshold) {
        AppendKeepsSeparated(st.points, d.quad, e.threshold);
      }
      AcceptAllConsistent(AcceptOne(st, d, p, e), dets[1..], p, e);
    }
  }

  /** Every newly accepted detection is one of the trial's detections. */
  lemma {:induction false} AcceptAllSound(st: State, dets: seq<Detection>, p: Params, e: Engine)
    ensures var r := AcceptAll(st, dets, p, e);
      forall i :: |st.results| <= i < |r.results| ==> r.results[i] in dets
    decreases |dets|
  {
    var r := AcceptAll(st, dets, p, e);
    if |dets| != 0 {
      var d := dets[0];
      var st1 := AcceptOne(st, d, p, e);
      AcceptAllSound(st1, dets[1..], p, e);
      AcceptAllAppends(st1, dets[1..], p, e);
      forall i | |st.results| <= i < |r.results|
        ensures r.results[i] in dets
      {
        if i < |st1.results| {
          assert st1.results[i] == d;
        } else {
          assert r.results[i] in dets[1..];
        }
      }
    }
  }

  /** Nothing text-bearing is lost: each detection with non-empty text is
      either newly accepted or a duplicate of some accepted quad. */
  lemma {:induction false} AcceptAllCovers(st: State, dets: seq<Detection>, p: Params, e: Engine)
    ensures var r := AcceptAll(st, dets, p, e);
      forall d :: d in dets && d.text != "" ==>
        d in r.results[|st.results|..] || IsDuplicate(r.points, d.quad, e.threshold)
    decreases |dets|
  {
    var r := AcceptAll(st, dets, p, e);
    if |dets| != 0 {
      var d := dets[0];
      var st1 := AcceptOne(st, d, p, e);
      AcceptAllCovers(st1, dets[1..], p, e);
      AcceptAllAppends(st1, dets[1..], p, e);
      var added := r.results[|st.results|..];
      var later := r.results[|st1.results|..];
      var accepted := d.text != "" && !IsDuplicate(st.points, d.quad, e.threshold);
      assert added == st1.results[|st.results|..] + later;
      forall x | x in dets && x.text != ""
        ensures x in added || IsDuplicate(r.points, x.quad, e.threshold)
      {
        if x in dets[1..] {
          assert x in later || IsDuplicate(r.points, x.quad, e.threshold);
        } else if accepted {
          assert x == d && st1.results[|st.results|..] == [d];
        } else {
          DuplicateOfPrefix(st.points, r.points, d.quad, e.threshold);
        }
      }
    }
  }

  /** The events of one trial that accepted `added`: its head, then a
      crop/result pair per accepted detection. */
  function TrialBlock(st: State, p: Params, total: nat, e: Engine, added: seq<Detection>): seq<Event>
    requires st.completed < total
  {
    Head(st, p, total, e) + Announce(added, p, st.image, e.crop)
  }

  /** A trial's events hold exactly one progress value and no terminal event. */
  lemma TrialBlockProgress(st: State, p: Params, total: nat, e: Engine, added: seq<Detection>)
    requires st.completed < total
    ensures Progresses(TrialBlock(st, p, total, e, added)) == [Percent(st.completed + 1, total)]
    ensures NoTerminal(TrialBlock(st, p, total, e, added))
  {
    var adjusted := Adjust(e.ops, st.image, p);
    var pre := Preview(p, adjusted, e.detect(adjusted).quads);
    var prog := [Progress(Percent(st.completed + 1, total))];
    var ann := Announce(added, p, st.image, e.crop);
    assert TrialBlock(st, p, total, e, added) == pre + prog + ann;
    AnnounceHasNoProgressOrTerminal(added, p, st.image, e.crop);
    ProgressesAppend(pre + prog, ann);
    ProgressesAppend(pre, prog);
    assert Progresses(pre) == [];
    assert Progresses(prog) == [Percent(st.completed + 1, total)];
    assert NoTerminal(pre) && NoTerminal(prog);
    NoTerminalAppend(pre, prog);
    NoTerminalAppend(pre + prog, ann);
  }

  /** Whether or not the detector returned texts, a trial is its probe
      followed by processing the zipped detections (an empty text list
      zips to nothing). */
  lemma RunTrialIsAcceptAll(st: State, p: Params, total: nat, e: Engine)
    requires st.completed < total
    ensures RunTrial(st, p, total, e) == AcceptAll(Probe(st, p, total, e), Detections(st, p, e), p, e)
  {
    var out := e.detect(Adjust(e.ops, st.image, p));
    if |out.texts| == 0 {
      assert Zip(out.texts, out.quads) == [];
    }
  }

  /** One trial appends exactly its block of events, and the accepted lists
      only grow, by the same amount. */
  lemma TrialEvents(st: State, p: Params, total: nat, e: Engine)
    requires st.completed < total
    ensures var r := RunTrial(st, p, total, e);
      && st.points <= r.points && st.results <= r.results
      && |r.points| - |st.points| == |r.results| - |st.results|
      && r.events == st.events + TrialBlock(st, p, total, e, r.results[|st.results|..])
  {
    var st1 := Probe(st, p, total, e);
    var dets := Detections(st, p, e);
    var r := RunTrial(st, p, total, e);
    assert r == AcceptAll(st1, dets, p, e) by {
      RunTrialIsAcceptAll(st, p, total, e);
    }
    var ann := Announce(r.results[|st.results|..], p, st.image, e.crop);
    assert && st.points <= r.points && st.results <= r.results
           && |r.points| - |st.points| == |r.results| - |st.results|
           && r.events == st1.events + ann by {
      AcceptAllAppends(st1, dets, p, e);
    }
    var head := Head(st, p, total, e);
    assert (st.events + head) + ann == st.events + TrialBlock(st, p, total, e, r.results[|st.results|..]);
  }

  /** Acceptance within one trial, over the detector's texts and quads
      zipped together: what is accepted was detected with non-empty text,
      and every text-bearing detection is accepted or a duplicate. */
  lemma TrialAcceptance(st: State, p: Params, total: nat, e: Engine)
    requires Consistent(st, e.threshold) && st.completed < total
    ensures var r := RunTrial(st, p, total, e);
      && Consistent(r, e.threshold)
      && (forall i :: |st.results| <= i < |r.results| ==> r.results[i] in Detections(st, p, e))
      && (forall d :: d in Detections(st, p, e) && d.text != "" ==>
            d in r.results[|st.results|..] || IsDuplicate(r.points, d.quad, e.threshold))
  {
    var st1 := Probe(st, p, total, e);
    var dets := Detections(st, p, e);
    RunTrialIsAcceptAll(st, p, total, e);
    assert Consistent(st1, e.threshold);
    AcceptAllConsistent(st1, dets, p, e);
    AcceptAllSound(st1, dets, p, e);
    AcceptAllCovers(st1, dets, p, e);
  }

  /** Trials run back to back: the counter rises by one per trial and the
      accepted lists and the trace only grow. */
  lemma {:induction false} SweepGrows(st: State, ps: seq<Params>, total: nat, e: Engine)
    requires st.completed + |ps| <= total
    ensures var r := Sweep(st, ps, total, e);
      && r.completed == st.completed + |ps| && r.image == st.image
      && st.points <= r.points && st.results <= r.results
    decreases |ps|
  {
    if |ps| != 0 {
      TrialEvents(st, ps[0], total, e);
      SweepGrows(RunTrial(st, ps[0], total, e), ps[1..], total, e);
    }
  }

  /** The events one trial appends: one progress value and no terminal
      event. */
  function TrialEmits(st: State, p: Params, total: nat, e: Engine): (w: seq<Event>)
    requires st.completed < total
    ensures NoTerminal(w) && Progresses(w) == [Percent(st.completed + 1, total)]
  {
    var added := RunTrial(st, p, total, e).results[|st.results|..];
    TrialBlockProgress(st, p, total, e, added);
    TrialBlock(st, p, total, e, added)
  }

  /** One trial's events followed by those of the later trials: no terminal
      event, and the progress values are the ramp starting at this trial. */
  lemma TraceCons(a: seq<Event>, b: seq<Event>, c: nat, n: nat, c1: nat, n1: nat, total: nat)
    requires c1 == c + 1 && n1 + 1 == n && c + n <= total
    requires NoTerminal(a) && Progresses(a) == [Percent(c + 1, total)]
    requires NoTerminal(b) && Progresses(b) == Ramp(c1, n1, total)
    ensures NoTerminal(a + b)
    ensures Progresses(a + b) == Ramp(c, n, total)
  {
    ProgressesAppend(a, b);
    NoTerminalAppend(a, b);
  }

  /** The events trials `ps` append when run back to back from `st`: no
      terminal event, and exactly one progress value per trial, which is
      the ramp of the trial counts. */
  function SweepEmits(st: State, ps: seq<Params>, total: nat, e: Engine): (w: seq<Event>)
    requires st.completed + |ps| <= total
    ensures NoTerminal(w)
    ensures Progresses(w) == Ramp(st.completed, |ps|, total)
    decreases |ps|
  {
    if |ps| == 0 then []
    else
      var st1 := RunTrial(st, ps[0], total, e);
      var a := TrialEmits(st, ps[0], total, e);
      var b := SweepEmits(st1, ps[1..], total, e);
      TraceCons(a, b, st.completed, |ps|, st1.completed, |ps| - 1, total);
      a + b
  }

  /** Regrouping a concatenation, as a fact of its own: stated inline in a
      proof that also mentions whole trials, the solver spends its budget
      on the trials instead. */
  lemma AppendAssoc(x: seq<Event>, a: seq<Event>, b: seq<Event>)
    ensures (x + a) + b == x + (a + b)
  {
  }

  /** Running trials back to back only appends to the trace. */
  lemma {:induction false} SweepEvents(st: State, ps: seq<Params>, total: nat, e: Engine)
    requires st.completed + |ps| <= total
    ensures Sweep(st, ps, total, e).events == st.events + SweepEmits(st, ps, total, e)
    decreases |ps|
  {
    if |ps| != 0 {
      var st1 := RunTrial(st, ps[0], total, e);
      var a, b := TrialEmits(st, ps[0], total, e), SweepEmits(st1, ps[1..], total, e);
      assert st1.events == st.events + a by {
        TrialEvents(st, ps[0], total, e);
      }
      assert Sweep(st1, ps[1..], total, e).events == st1.events + b by {
        SweepEvents(st1, ps[1..], total, e);
      }
      assert Sweep(st, ps, total, e) == Sweep(st1, ps[1..], total, e);
      assert SweepEmits(st, ps, total, e) == a + b;
      AppendAssoc(st.events, a, b);
    }
  }

  /** Trials run back to back keep the accepted lists consistent. */
  lemma {:induction false} SweepConsistent(st: State, ps: seq<Params>, total: nat, e: Engine)
    requires Consistent(st, e.threshold) && st.completed + |ps| <= total
    ensures Consistent(Sweep(st, ps, total, e), e.threshold)
    decreases |ps|
  {
    if |ps| != 0 {
      TrialAcceptance(st, ps[0], total, e);
      SweepConsistent(RunTrial(st, ps[0], total, e), ps[1..], total, e);
    }
  }

  /** Running from trial k is: sweep the trials up to the first one at whose
      start the stop flag is seen (all of them when it never is), then emit
      `finished` if every trial ran and `stopped` otherwise. */
  lemma {:induction false} RunIsSweep(trials: seq<Params>, k: nat, st: State, stop: nat -> bool, e: Engine)
    requires k <= |trials| && st.completed == k
    ensures var s := FirstStop(stop, k, |trials|);
            RunFrom(trials, k, st, stop, e) == Terminate(Sweep(st, trials[k..s], |trials|, e), s == |trials|)
    decreases |trials| - k
  {
    var s := FirstStop(stop, k, |trials|);
    if k == |trials| || stop(k) {
      assert s == k;
      assert trials[k..s] == [];
    } else {
      var st1 := RunTrial(st, trials[k], |trials|, e);
      RunIsSweep(trials, k + 1, st1, stop, e);
      assert FirstStop(stop, k + 1, |trials|) == s;
      assert trials[k..s][1..] == trials[k + 1..s];
    }
  }

  /** Sweeping a + b is sweeping a, then b. */
  lemma {:induction false} SweepAppend(st: State, a: seq<Params>, b: seq<Params>, total: nat, e: Engine)
    requires st.completed + |a| + |b| <= total
    ensures Sweep(st, a, total, e).completed == st.completed + |a|
    ensures Sweep(st, a + b, total, e) == Sweep(Sweep(st, a, total, e), b, total, e)
    decreases |a|
  {
    if |a| == 0 {
      assert a + b == b;
    } else {
      assert (a + b)[1..] == a[1..] + b;
      SweepAppend(RunTrial(st, a[0], total, e), a[1..], b, total, e);
    }
  }

  // ---------------------------------------------------------------------
  // Properties of a whole run

  /** The trials that a run with this stop flag executes: those before the
      first trial at whose start the flag is seen. */
  function Executed(o: Options, stop: nat -> bool): (ps: seq<Params>)
    ensures |ps| == FirstStop(stop, 0, TrialCount(o)) && |ps| <= TrialCount(o)
  {
    Trials(o)[..FirstStop(stop, 0, TrialCount(o))]
  }

  /** A whole run is the sweep of the executed trials followed by a single
      terminal event: `finished` when every trial ran, `stopped` otherwise. */
  lemma BruteForceIsSweep(img: Image, o: Options, e: Engine, stop: nat -> bool)
    ensures BruteForceDecode(img, o, e, stop)
         == Terminate(Sweep(Start(img), Executed(o, stop), TrialCount(o), e), |Executed(o, stop)| == TrialCount(o))
  {
    var trials := Trials(o);
    var s := FirstStop(stop, 0, |trials|);
    RunIsSweep(trials, 0, Start(img), stop, e);
    assert trials[0..s] == trials[..s];
  }

  /** A run ends with exactly one terminal event, as its last event:
      `finished` exactly when the flag was not seen at the start of any
      trial, `stopped` otherwise; the counter equals the number of trials
      that ran, and the working image is the input image. */
  lemma BruteForceEndsOnce(img: Image, o: Options, e: Engine, stop: nat -> bool)
    ensures var r := BruteForceDecode(img, o, e, stop);
      && |r.events| > 0
      && (r.events[|r.events| - 1] == Finished || r.events[|r.events| - 1] == Stopped)
      && NoTerminal(r.events[..|r.events| - 1])
      && (r.events[|r.events| - 1] == Finished <==> forall k :: 0 <= k < TrialCount(o) ==> !stop(k))
      && r.completed == FirstStop(stop, 0, TrialCount(o))
      && r.image == img
  {
    var n := TrialCount(o);
    var ps := Executed(o, stop);
    var w := Sweep(Start(img), ps, n, e);
    var last := if |ps| == n then Finished else Stopped;
    var r := BruteForceDecode(img, o, e, stop);
    assert r.events == w.events + [last] && r.completed == w.completed && r.image == w.image by {
      BruteForceIsSweep(img, o, e, stop);
    }
    assert w.completed == |ps| && w.image == img by {
      SweepGrows(Start(img), ps, n, e);
    }
    assert NoTerminal(w.events) by {
      SweepEvents(Start(img), ps, n, e);
      assert Start(img).events + SweepEmits(Start(img), ps, n, e) == SweepEmits(Start(img), ps, n, e);
    }
    assert r.events[..|r.events| - 1] == w.events;
  }

  /** Every pair of accepted quads is at distance at least the threshold;
      the accepted quads and (text, quad) pairs line up one for one and
      every accepted text is non-empty. */
  lemma BruteForceDedup(img: Image, o: Options, e: Engine, stop: nat -> bool)
    ensures var r := BruteForceDecode(img, o, e, stop);
      && |r.points| == |r.results|
      && (forall i :: 0 <= i < |r.results| ==> r.results[i].quad == r.points[i] && r.results[i].text != "")
      && (forall i, j :: 0 <= i < |r.points| && 0 <= j < |r.points| && i != j ==> !Near(r.points[i], r.points[j], e.threshold))
  {
    BruteForceIsSweep(img, o, e, stop);
    SweepConsistent(Start(img), Executed(o, stop), TrialCount(o), e);
  }

  /** Facts about a ramp of progress values. */
  lemma RampFacts(from: nat, n: nat, total: nat)
    requires from + n <= total
    ensures var ps := Ramp(from, n, total);
      && (forall i :: 0 <= i < n ==> 0 <= ps[i] <= 100)
      && (forall i, j :: 0 <= i <= j < n ==> ps[i] <= ps[j])
      && (from + n == total && 0 < n ==> ps[n - 1] == 100)
  {
    var ps := Ramp(from, n, total);
    forall i | 0 <= i < n
      ensures 0 <= ps[i] <= 100
    {
      RampAt(from, n, total, i);
    }
    if from + n == total && 0 < n {
      RampAt(from, n, total, n - 1);
    }
    forall i, j | 0 <= i <= j < n
      ensures ps[i] <= ps[j]
    {
      RampAt(from, n, total, i);
      RampAt(from, n, total, j);
      PercentMonotone(from + i + 1, from + j + 1, total);
    }
  }

  /** The progress values of a run are one per trial that ran, each within
      0..100, never decreasing, and the last is 100 when every trial ran. */
  lemma BruteForceProgress(img: Image, o: Options, e: Engine, stop: nat -> bool)
    ensures var r := BruteForceDecode(img, o, e, stop);
            var ps := Progresses(r.events);
      && ps == Ramp(0, |Executed(o, stop)|, TrialCount(o))
      && |ps| == r.completed
      && (forall i :: 0 <= i < |ps| ==> 0 <= ps[i] <= 100)
      && (forall i, j :: 0 <= i <= j < |ps| ==> ps[i] <= ps[j])
      && (r.completed == TrialCount(o) && 0 < r.completed ==> ps[|ps| - 1] == 100)
  {
    var n := TrialCount(o);
    var ex := Executed(o, stop);
    var w := Sweep(Start(img), ex, n, e);
    var last := if |ex| == n then Finished else Stopped;
    var r := BruteForceDecode(img, o, e, stop);
    assert r.events == w.events + [last] && r.completed == w.completed by {
      BruteForceIsSweep(img, o, e, stop);
    }
    assert w.completed == |ex| by {
      SweepGrows(Start(img), ex, n, e);
    }
    assert Progresses(w.events) == Ramp(0, |ex|, n) by {
      SweepEvents(Start(img), ex, n, e);
      assert Start(img).events + SweepEmits(Start(img), ex, n, e) == SweepEmits(Start(img), ex, n, e);
    }
    assert Progresses(r.events) == Progresses(w.events) by {
      ProgressesAppend(w.events, [last]);
      assert Progresses([last]) == [];
    }
    RampFacts(0, |ex|, n);
  }

  /** Stopping keeps what was found: a run stopped at trial s has accepted
      exactly what the first s trials accept, which is a prefix of what the
      same run accepts when the flag is never set. */
  lemma BruteForceStoppedIsPrefix(img: Image, o: Options, e: Engine, stop: nat -> bool)
    ensures var r := BruteForceDecode(img, o, e, stop);
            var full := BruteForceDecode(img, o, e, (k: nat) => false);
            var w := Sweep(Start(img), Executed(o, stop), TrialCount(o), e);
      && r.points == w.points && r.results == w.results
      && r.points <= full.points && r.results <= full.results
  {
    var n := TrialCount(o);
    var never := (k: nat) => false;
    var ex := Executed(o, stop);
    var all := Executed(o, never);
    assert FirstStop(never, 0, n) == n;
    BruteForceIsSweep(img, o, e, stop);
    BruteForceIsSweep(img, o, e, never);
    assert all == ex + Trials(o)[|ex|..];
    SweepAppend(Start(img), ex, Trials(o)[|ex|..], n, e);
    var w := Sweep(Start(img), ex, n, e);
    SweepGrows(w, Trials(o)[|ex|..], n, e);
  }

  /** With an empty option list there are no trials, no division happens,
      nothing is accepted and the only event is `finished`. */
  lemma BruteForceEmptyOptions(img: Image, o: Options, e: Engine, stop: nat -> bool)
    requires |o.grayscales| == 0 || |o.contrasts| == 0 || |o.brightnesses| == 0 || |o.blurs| == 0
    ensures var r := BruteForceDecode(img, o, e, stop);
      r.events == [Finished] && r.points == [] && r.results == [] && r.completed == 0
  {
    EmptyListNoTrials(o);
  }

  /** The run of a worker constructed without an explicit threshold: the
      duplicate threshold is the default, 50. */
  function DefaultRun(img: Image, o: Options, ops: Ops, detect: Image -> DetectorOutput,
                      inside: (Quad, int, int) -> bool, crop: (Image, Quad) -> Image, stop: nat -> bool): State
  {
    BruteForceDecode(img, o, Engine(DefaultThreshold, ops, detect, inside, crop), stop)
  }

  /** With the default threshold the run ends in `finished` or `stopped`,
      `finished` exactly when the flag is never set, a finished run has
      performed every trial, and every two accepted codes are at least 50
      apart. */
  lemma DefaultRunFacts(img: Image, o: Options, ops: Ops, detect: Image -> DetectorOutput,
                        inside: (Quad, int, int) -> bool, crop: (Image, Quad) -> Image, stop: nat -> bool)
    ensures var r := DefaultRun(img, o, ops, detect, inside, crop, stop);
      && |r.events| > 0
      && (r.events[|r.events| - 1] == Finished || r.events[|r.events| - 1] == Stopped)
      && (r.events[|r.events| - 1] == Finished <==> forall k :: 0 <= k < TrialCount(o) ==> !stop(k))
      && (r.events[|r.events| - 1] == Finished ==> r.completed == TrialCount(o))
      && (forall i, j :: 0 <= i < |r.points| && 0 <= j < |r.points| && i != j ==> !Near(r.points[i], r.points[j], 50.0))
  {
    var e := Engine(DefaultThreshold, ops, detect, inside, crop);
    var r := DefaultRun(img, o, ops, detect, inside, crop, stop);
    assert && |r.events| > 0
           && (r.events[|r.events| - 1] == Finished || r.events[|r.events| - 1] == Stopped)
           && (r.events[|r.events| - 1] == Finished <==> forall k :: 0 <= k < TrialCount(o) ==> !stop(k))
           && r.completed == FirstStop(stop, 0, TrialCount(o)) by {
      BruteForceEndsOnce(img, o, e, stop);
    }
    assert forall i, j :: 0 <= i < |r.points| && 0 <= j < |r.points| && i != j ==> !Near(r.points[i], r.points[j], 50.0) by {
      BruteForceDedup(img, o, e, stop);
    }
  }
}
