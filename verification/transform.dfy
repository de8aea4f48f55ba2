/** The per-trial image adjustment shared by the interactive decoder and
    the batch driver: optional grey conversion, then an optional
    contrast/brightness remap, then an optional Gaussian blur. The pixel
    operations themselves are opaque parameters. */
module Transform {
  import opened Raster

  /** One trial's settings, as passed to the adjustment. */
  datatype Params = Params(grayscale: bool, contrast: real, brightness: int, blur: int)

  /** The keyword defaults: no grey conversion, contrast 1.0, brightness 0, no blur. */
  const Defaults := Params(false, 1.0, 0, 0)

  datatype Step = ToGray | ScaleAbs(alpha: real, beta: int) | GaussianBlur(ksize: int)

  /** Position of a step kind in the fixed pipeline order. */
  function Stage(s: Step): nat
  {
    match s
    case ToGray => 0
    case ScaleAbs(_, _) => 1
    case GaussianBlur(_) => 2
  }

  /** The steps applied for `p`, in application order. */
  function Steps(p: Params): seq<Step>
  {
    (if p.grayscale then [ToGray] else [])
    + (if p.contrast != 1.0 || p.brightness != 0 then [ScaleAbs(p.contrast, p.brightness)] else [])
    + (if p.blur > 0 then [GaussianBlur(p.blur)] else [])
  }

  /** Which steps run for `p`: grey conversion iff requested, the scale
      step iff contrast or brightness differs from its default, the blur
      iff the kernel is positive, nothing else, and in pipeline order. */
  lemma StepsSpec(p: Params)
    ensures var s := Steps(p);
      && (ToGray in s <==> p.grayscale)
      && (ScaleAbs(p.contrast, p.brightness) in s <==> (p.contrast != 1.0 || p.brightness != 0))
      && (GaussianBlur(p.blur) in s <==> p.blur > 0)
      && (forall st :: st in s ==> st == ToGray || st == ScaleAbs(p.contrast, p.brightness) || st == GaussianBlur(p.blur))
      && (forall i, j :: 0 <= i < j < |s| ==> Stage(s[i]) < Stage(s[j]))
  {
    var a := if p.grayscale then [ToGray] else [];
    var b := if p.contrast != 1.0 || p.brightness != 0 then [ScaleAbs(p.contrast, p.brightness)] else [];
    var c := if p.blur > 0 then [GaussianBlur(p.blur)] else [];
    var s := Steps(p);
    assert s == a + b + c;
    assert forall k :: 0 <= k < |s| ==> Stage(s[k]) == (if k < |a| then 0 else if k < |a| + |b| then 1 else 2);
  }

  /** The image library operations, left uninterpreted. */
  datatype Ops = Ops(
    cvtGray: Image -> Image,
    convertScaleAbs: (Image, real, int) -> Image,
    gaussianBlur: (Image, int) -> Image)

  function ApplyStep(ops: Ops, img: Image, s: Step): Image
  {
    match s
    case ToGray => ops.cvtGray(img)
    case ScaleAbs(alpha, beta) => ops.convertScaleAbs(img, alpha, beta)
    case GaussianBlur(k) => ops.gaussianBlur(img, k)
  }

  /** Applies `steps` left to right. */
  function ApplySteps(ops: Ops, img: Image, steps: seq<Step>): Image
    decreases |steps|
  {
    if |steps| == 0 then img else ApplySteps(ops, ApplyStep(ops, img, steps[0]), steps[1..])
  }

  /** The adjusted image for one trial. */
  function Adjust(ops: Ops, img: Image, p: Params): Image
  {
    ApplySteps(ops, img, Steps(p))
  }

  /** The adjustment agrees with the program's three guarded reassignments,
      read top to bottom. */
  lemma AdjustMatchesGuardedSteps(ops: Ops, img: Image, p: Params)
    ensures Adjust(ops, img, p) ==
      var g := if p.grayscale then ops.cvtGray(img) else img;
      var s := if p.contrast != 1.0 || p.brightness != 0 then ops.convertScaleAbs(g, p.contrast, p.brightness) else g;
      if p.blur > 0 then ops.gaussianBlur(s, p.blur) else s
  {
    var a := if p.grayscale then [ToGray] else [];
    var b := if p.contrast != 1.0 || p.brightness != 0 then [ScaleAbs(p.contrast, p.brightness)] else [];
    var c := if p.blur > 0 then [GaussianBlur(p.blur)] else [];
    assert Steps(p) == a + b + c;
    ApplyStepsAppend(ops, img, a, b + c);
    ApplyStepsAppend(ops, ApplySteps(ops, img, a), b, c);
    assert a + b + c == a + (b + c);
  }

  lemma {:induction false} ApplyStepsAppend(ops: Ops, img: Image, s: seq<Step>, t: seq<Step>)
    ensures ApplySteps(ops, img, s + t) == ApplySteps(ops, ApplySteps(ops, img, s), t)
    decreases |s|
  {
    if |s| != 0 {
      assert (s + t)[1..] == s[1..] + t;
      ApplyStepsAppend(ops, ApplyStep(ops, img, s[0]), s[1..], t);
    } else {
      assert s + t == t;
    }
  }

  /** With grey conversion off, contrast 1.0, brightness 0 and no blur
      (the keyword defaults in particular) the input comes back unchanged. */
  lemma AdjustDefaultsIsIdentity(ops: Ops, img: Image, p: Params)
    requires !p.grayscale && p.contrast == 1.0 && p.brightness == 0 && p.blur <= 0
    ensures Adjust(ops, img, p) == img
  {
    assert Steps(p) == [];
  }

  /** Calling the adjustment with its keyword defaults returns the input. */
  lemma AdjustKeywordDefaults(ops: Ops, img: Image)
    ensures Adjust(ops, img, Defaults) == img
  {
    AdjustDefaultsIsIdentity(ops, img, Defaults);
  }
}
