/** The batch driver: for each image, each resize ratio in turn is tried
    until one yields a decoded text; one such try submits every trial of
    the option product to a worker pool and returns the first trial, in
    completion order, whose first decoded text is non-empty. Completion
    order is a parameter, so the choice among successful trials is left
    open exactly as the pool leaves it open. */
module Batch {
  import opened Raster
  import opened Transform
  import opened Enumeration
  import opened Detector

  datatype Option<T> = None | Some(value: T)

  /** What one worker hands back: the detector's texts and the settings it
      was called with. */
  datatype Attempt = Attempt(results: seq<string>, params: Params)

  /** One worker call: adjust, detect, and return the texts with the
      settings it was given. The detector sees the image produced by the
      three guarded reassignments, read top to bottom; settings that
      switch every step off hand it the input image itself. */
  function DecodeQrcode(ops: Ops, detect: Image -> DetectorOutput, img: Image, p: Params): (a: Attempt)
    ensures a.params == p
    ensures a.results == detect(
              var g := if p.grayscale then ops.cvtGray(img) else img;
              var s := if p.contrast != 1.0 || p.brightness != 0 then ops.convertScaleAbs(g, p.contrast, p.brightness) else g;
              if p.blur > 0 then ops.gaussianBlur(s, p.blur) else s).texts
    ensures !p.grayscale && p.contrast == 1.0 && p.brightness == 0 && p.blur <= 0 ==> a.results == detect(img).texts
  {
    AdjustMatchesGuardedSteps(ops, img, p);
    Attempt(detect(Adjust(ops, img, p)).texts, p)
  }

  /** A worker result counts as a success only when its first text exists
      and is non-empty; later texts are not looked at. */
  predicate Succeeded(a: Attempt)
  {
    |a.results| > 0 && a.results[0] != ""
  }

  /** What a brute-force call returns: the first text and the settings of
      the winning trial, or nothing. */
  datatype Outcome = NotFound | Found(text: string, params: Params)

  /** Scans worker results in completion order and returns the first success. */
  function FirstCompleted(attempts: seq<Attempt>, order: seq<nat>): (r: Outcome)
    requires forall k :: 0 <= k < |order| ==> order[k] < |attempts|
    ensures r.NotFound? <==> forall k :: 0 <= k < |order| ==> !Succeeded(attempts[order[k]])
    ensures r.Found? ==>
              exists k :: 0 <= k < |order|
                && Succeeded(attempts[order[k]])
                && (forall j :: 0 <= j < k ==> !Succeeded(attempts[order[j]]))
                && r == Found(attempts[order[k]].results[0], attempts[order[k]].params)
    decreases |order|
  {
    if |order| == 0 then NotFound
    else if Succeeded(attempts[order[0]]) then Found(attempts[order[0]].results[0], attempts[order[0]].params)
    else
      var r := FirstCompleted(attempts, order[1..]);
      assert forall k :: 1 <= k < |order| ==> order[k] == order[1..][k - 1];
      r
  }

  /** `order` lists the indices of n submitted trials in the order they
      complete: each index below n appears, and nothing else. */
  predicate IsCompletionOrder(order: seq<nat>, n: nat)
  {
    && |order| == n
    && (forall k :: 0 <= k < |order| ==> order[k] < n)
    && (forall i :: 0 <= i < n ==> i in order)
  }

  /** The worker results, one per trial, in submission order. */
  function Attempts(ops: Ops, detect: Image -> DetectorOutput, img: Image, o: Options): (a: seq<Attempt>)
    ensures |a| == TrialCount(o)
    ensures forall i :: 0 <= i < |a| ==> a[i] == DecodeQrcode(ops, detect, img, Trials(o)[i])
    ensures forall i :: 0 <= i < |a| ==> a[i].params == Trials(o)[i]
  {
    var trials := Trials(o);
    seq(|trials|, i requires 0 <= i < |trials| => DecodeQrcode(ops, detect, img, trials[i]))
  }

  /** When every submitted trial completes exactly once, the scan finds a
      success iff some trial succeeded, and what it returns is one of them. */
  lemma {:induction false} FirstCompletedCovers(attempts: seq<Attempt>, order: seq<nat>)
    requires IsCompletionOrder(order, |attempts|)
    ensures FirstCompleted(attempts, order).NotFound? <==> forall i :: 0 <= i < |attempts| ==> !Succeeded(attempts[i])
    ensures FirstCompleted(attempts, order).Found? ==>
              exists i :: 0 <= i < |attempts| && Succeeded(attempts[i])
                && FirstCompleted(attempts, order) == Found(attempts[i].results[0], attempts[i].params)
  {
    var r := FirstCompleted(attempts, order);
    if r.NotFound? {
      forall i | 0 <= i < |attempts|
        ensures !Succeeded(attempts[i])
      {
        assert i in order;
        var k :| 0 <= k < |order| && order[k] == i;
      }
    } else {
      var k :| 0 <= k < |order| && Succeeded(attempts[order[k]])
              && r == Found(attempts[order[k]].results[0], attempts[order[k]].params);
      assert order[k] < |attempts|;
    }
  }

  /** One brute-force call: one trial per element of the option product;
      the result is a success of some trial, with that trial's own settings,
      and is NotFound exactly when no trial succeeds. */
  function BruteForce(ops: Ops, detect: Image -> DetectorOutput, img: Image, o: Options, order: seq<nat>): (r: Outcome)
    requires IsCompletionOrder(order, TrialCount(o))
    ensures r.NotFound? <==> forall i :: 0 <= i < TrialCount(o) ==> !Succeeded(Attempts(ops, detect, img, o)[i])
    ensures r.Found? ==> r.text != ""
    ensures r.Found? ==>
              exists i :: 0 <= i < TrialCount(o)
                && Succeeded(Attempts(ops, detect, img, o)[i])
                && r.text == Attempts(ops, detect, img, o)[i].results[0]
                && r.params == Trials(o)[i]
  {
    var attempts := Attempts(ops, detect, img, o);
    FirstCompletedCovers(attempts, order);
    FirstCompleted(attempts, order)
  }

  /** Which successful trial wins is up to completion order: any trial that
      succeeds is returned when it completes first. */
  lemma AnySuccessCanWin(ops: Ops, detect: Image -> DetectorOutput, img: Image, o: Options, i: nat)
    requires i < TrialCount(o) && Succeeded(Attempts(ops, detect, img, o)[i])
    ensures exists order :: IsCompletionOrder(order, TrialCount(o))
              && BruteForce(ops, detect, img, o, order) == Found(Attempts(ops, detect, img, o)[i].results[0], Trials(o)[i])
  {
    var n := TrialCount(o);
    var others := seq(n - 1, k requires 0 <= k < n - 1 => if k < i then k else k + 1);
    var order := [i] + others;
    forall j | 0 <= j < n
      ensures j in order
    {
      if j < i {
        assert order[j + 1] == j;
      } else if j > i {
        assert order[j] == others[j - 1] == j;
      } else {
        assert order[0] == j;
      }
    }
    assert IsCompletionOrder(order, n);
    assert BruteForce(ops, detect, img, o, order) == Found(Attempts(ops, detect, img, o)[i].results[0], Trials(o)[i]);
  }

  /** `if result:` on the returned text: a found, non-empty text. */
  predicate Hit(r: Outcome)
  {
    r.Found? && r.text != ""
  }

  /** The ratios from k on are tried in list order and the first one whose
      try is a hit ends the search. */
  function FirstHit(img: Image, ratios: seq<real>, attempt: (Image, real) -> Outcome, k: nat): (r: Option<nat>)
    requires k <= |ratios|
    ensures r.Some? ==> k <= r.value < |ratios| && Hit(attempt(img, ratios[r.value]))
                        && forall j :: k <= j < r.value ==> !Hit(attempt(img, ratios[j]))
    ensures r.None? <==> forall j :: k <= j < |ratios| ==> !Hit(attempt(img, ratios[j]))
    decreases |ratios| - k
  {
    if k == |ratios| then None
    else if Hit(attempt(img, ratios[k])) then Some(k)
    else FirstHit(img, ratios, attempt, k + 1)
  }

  /** Number of the given images for which some ratio is a hit. */
  function CountDecoded(images: seq<Image>, ratios: seq<real>, attempt: (Image, real) -> Outcome): (c: nat)
    ensures c <= |images|
    decreases |images|
  {
    if |images| == 0 then 0
    else CountDecoded(images[..|images| - 1], ratios, attempt)
         + (if FirstHit(images[|images| - 1], ratios, attempt, 0).Some? then 1 else 0)
  }

  /** Taking one more image adds one to the count exactly when that image
      has a hit. */
  lemma CountDecodedStep(images: seq<Image>, ratios: seq<real>, attempt: (Image, real) -> Outcome, t: nat)
    requires t < |images|
    ensures CountDecoded(images[..t + 1], ratios, attempt)
            == CountDecoded(images[..t], ratios, attempt) + (if FirstHit(images[t], ratios, attempt, 0).Some? then 1 else 0)
  {
    assert images[..t + 1][..t] == images[..t];
    assert images[..t + 1][t] == images[t];
  }

  /** The inner ratio loop for one image: stop at the first hit. */
  method TryRatios(img: Image, ratios: seq<real>, attempt: (Image, real) -> Outcome) returns (found: bool)
    ensures found <==> FirstHit(img, ratios, attempt, 0).Some?
  {
    var r := 0;
    found := false;
    while r < |ratios| && !found
      invariant r <= |ratios|
      invariant found ==> 0 < r && Hit(attempt(img, ratios[r - 1]))
      invariant !found ==> forall j :: 0 <= j < r ==> !Hit(attempt(img, ratios[j]))
      decreases |ratios| - r, if found then 0 else 1
    {
      if Hit(attempt(img, ratios[r])) {
        found := true;
      }
      r := r + 1;
    }
  }

  /** The per-image loop: the success counter rises at most once per image
      and the image counter exactly once; the images reported as having no
      valid code are exactly those with no hit, in order. */
  method Tally(images: seq<Image>, ratios: seq<real>, attempt: (Image, real) -> Outcome)
    returns (total: nat, successful: nat, unreadable: seq<nat>)
    ensures total == |images|
    ensures successful <= total
    ensures successful == CountDecoded(images, ratios, attempt)
    ensures successful + |unreadable| == total
    ensures forall j :: 0 <= j < |unreadable| ==> unreadable[j] < |images|
    ensures forall i :: 0 <= i < |images| ==> (i in unreadable <==> FirstHit(images[i], ratios, attempt, 0).None?)
    ensures forall j, k :: 0 <= j < k < |unreadable| ==> unreadable[j] < unreadable[k]
  {
    total, successful, unreadable := 0, 0, [];
    while total < |images|
      invariant total <= |images|
      invariant successful <= total
      invariant successful == CountDecoded(images[..total], ratios, attempt)
      invariant successful + |unreadable| == total
      invariant forall j :: 0 <= j < |unreadable| ==> unreadable[j] < total
      invariant forall i :: 0 <= i < total ==> (i in unreadable <==> FirstHit(images[i], ratios, attempt, 0).None?)
      invariant forall j, k :: 0 <= j < k < |unreadable| ==> unreadable[j] < unreadable[k]
      decreases |images| - total
    {
      var found := TryRatios(images[total], ratios, attempt);
      CountDecodedStep(images, ratios, attempt, total);
      if found {
        successful := successful + 1;
      } else {
        unreadable := unreadable + [total];
      }
      total := total + 1;
    }
    assert images[..total] == images;
  }
}
