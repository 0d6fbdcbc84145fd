/** The grayscale value of a genotype call used for the model input and the
    Hilbert-ordered value rows: homozygous alternate (2) is black 0,
    heterozygous (1) is mid-gray 0.5, and everything else (hom-ref 0 and any
    other byte) is white 1. */
module Grayscale {
  import opened Js

  /** The three values a grayscale entry can take. */
  type Shade = v: real | v == 0.0 || v == 0.5 || v == 1.0 witness 1.0

  /** The per-element function of `gts.map(gt => ...)`. Its shade reads
      back as the call; any other value reads back as hom-ref 0 (the
      source's catch-all branch). */
  function GrayOf(code: int): (v: Shade)
    ensures CodeOf(v) == if 0 <= code <= 2 then code else 0
  {
    if code == 2 then 0.0 else if code == 1 then 0.5 else 1.0
  }

  /** The genotype a shade stands for (white reads back as hom-ref). */
  function CodeOf(v: Shade): (code: int)
    ensures 0 <= code <= 2
  {
    if v == 0.0 then 2 else if v == 0.5 then 1 else 0
  }

  /** gts.map(GrayOf) */
  function GrayscaleValues(codes: seq<int>): (gray: seq<Shade>)
    ensures |gray| == |codes|
  {
    seq(|codes|, i requires 0 <= i < |codes| => GrayOf(codes[i]))
  }

  /** The grayscale row of valid calls loses nothing: the calls can be read
      back from it, position by position. */
  lemma {:induction false} GrayscaleDecodes(codes: seq<int>)
    requires forall i :: 0 <= i < |codes| ==> 0 <= codes[i] <= 2
    ensures seq(|codes|, i requires 0 <= i < |codes| => CodeOf(GrayscaleValues(codes)[i])) == codes
  {
    forall i | 0 <= i < |codes|
      ensures CodeOf(GrayscaleValues(codes)[i]) == codes[i]
    {
      assert GrayscaleValues(codes)[i] == GrayOf(codes[i]);
    }
  }

  /** Two valid calls get the same shade only if they are the same call;
      hom-ref and any out-of-range byte share white. */
  lemma GrayOfSeparatesCalls(a: int, b: int)
    requires 0 <= a <= 2 && 0 <= b <= 2
    ensures GrayOf(a) == GrayOf(b) <==> a == b
  {
  }

  /** The text Array.join writes for a shade: "0", "0.5" or "1". */
  function ShadeText(v: Shade): (t: string)
    ensures ShadeOfText(t) == Some(v)
  {
    if v == 0.0 then "0" else if v == 0.5 then "0.5" else "1"
  }

  /** The shade a value-file cell stands for, if it is one of the three texts. */
  function ShadeOfText(t: string): Option<Shade> {
    if t == "0" then Some(0.0) else if t == "0.5" then Some(0.5)
    else if t == "1" then Some(1.0) else None
  }

  /** A written shade reads back as itself, and its text holds no field or
      line separator. */
  lemma ShadeTextReadsBack(v: Shade)
    ensures ShadeOfText(ShadeText(v)) == Some(v)
    ensures Free(ShadeText(v), '\t') && Free(ShadeText(v), '\n')
  {
  }
}
