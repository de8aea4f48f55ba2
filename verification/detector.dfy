/** The detector's interface: a call on an image yields a list of decoded
    texts and a list of corner quads. The detector itself is opaque. */
module Detector {
  import opened Geometry

  datatype DetectorOutput = DetectorOutput(texts: seq<string>, quads: seq<Quad>)

  /** One decoded text with its corners. */
  datatype Detection = Detection(text: string, quad: Quad)

  /** Pairs texts with quads position by position, stopping at the end of
      the shorter list. */
  function Zip(texts: seq<string>, quads: seq<Quad>): (r: seq<Detection>)
    ensures |r| == if |texts| <= |quads| then |texts| else |quads|
    ensures forall i :: 0 <= i < |r| ==> r[i] == Detection(texts[i], quads[i])
    decreases |texts|
  {
    if |texts| == 0 || |quads| == 0 then []
    else [Detection(texts[0], quads[0])] + Zip(texts[1..], quads[1..])
  }
}
