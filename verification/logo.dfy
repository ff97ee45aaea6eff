/** The logo fixer (`FixLogo`) and its target-size calculation (`calculateTargetDimension`):
    a logo wider or taller than the limit is scaled down, keeping its aspect ratio, so that
    its longer edge becomes the maximum width. */
module LogoFix {
  import opened Common

  /** Pixel dimensions of a PNG image. */
  datatype Dimensions = Dimensions(width: nat, height: nat)

  /** What the fixer does to the image on success. */
  datatype LogoAction = Keep | Resize(target: Dimensions)

  function Max(a: nat, b: nat): nat {
    if a >= b then a else b
  }

  /** Floor division brackets the exact quotient. */
  lemma FloorBounds(a: nat, b: nat)
    requires b > 0
    ensures (a / b) * b <= a < (a / b + 1) * b
  {
  }

  /** The target size for a logo of `width` x `height` under the limit `maxW`. One ratio,
      `maxW / longer edge`, scales both sides, and each side is truncated to whole pixels. */
  function TargetDimension(width: nat, height: nat, maxW: nat): (r: Dimensions)
    requires Max(width, height) > 0
    // The longer edge becomes exactly maxW (both edges, for a square).
    ensures width >= height ==> r.width == maxW
    ensures height >= width ==> r.height == maxW
    // Neither edge exceeds maxW.
    ensures r.width <= maxW && r.height <= maxW
    // Each edge is the truncation of its exactly scaled length.
    ensures r.width * Max(width, height) <= width * maxW < (r.width + 1) * Max(width, height)
    ensures r.height * Max(width, height) <= height * maxW < (r.height + 1) * Max(width, height)
  {
    var maxEdge := Max(width, height);
    var w := Scale(width, maxEdge, maxW);
    var h := Scale(height, maxEdge, maxW);
    Dimensions(w, h)
  }

  /** Cancelling a positive factor from a strict inequality. */
  lemma CancelLt(d: int, e: int, m: nat)
    requires m > 0 && m * d < m * e
    ensures d < e
  {
  }

  /** Cancelling a positive factor from a non-strict inequality. */
  lemma CancelLe(d: int, e: int, m: nat)
    requires m > 0 && d * m <= e * m
    ensures d <= e
  {
    assert m * (e + 1) == m * e + m;
    CancelLt(d, e + 1, m);
  }

  /** One edge scaled by `maxW / maxEdge` and truncated. */
  function Scale(side: nat, maxEdge: nat, maxW: nat): (q: nat)
    requires 0 < maxEdge && side <= maxEdge
    ensures q * maxEdge <= side * maxW < (q + 1) * maxEdge
    ensures q <= maxW
    ensures side == maxEdge ==> q == maxW
  {
    FloorBounds(side * maxW, maxEdge);
    LeDiv(side, maxEdge, maxW);
    (side * maxW) / maxEdge
  }

  /** A side no longer than the longer edge scales to at most maxW, and the longer edge
      itself scales to exactly maxW. */
  lemma LeDiv(side: nat, maxEdge: nat, maxW: nat)
    requires 0 < maxEdge && side <= maxEdge
    ensures (side * maxW) / maxEdge <= maxW
    ensures side == maxEdge ==> (side * maxW) / maxEdge == maxW
  {
    var q := (side * maxW) / maxEdge;
    FloorBounds(side * maxW, maxEdge);
    assert side * maxW <= maxW * maxEdge;
    CancelLe(q, maxW, maxEdge);
    if side == maxEdge {
      assert maxEdge * maxW < maxEdge * (q + 1);
      CancelLt(maxW, q + 1, maxEdge);
    }
  }

  /** Only an oversized logo is shrunk: when the longer edge exceeds maxW, neither edge grows. */
  lemma {:induction false} TargetShrinks(width: nat, height: nat, maxW: nat)
    requires Max(width, height) > maxW
    ensures TargetDimension(width, height, maxW).width <= width
    ensures TargetDimension(width, height, maxW).height <= height
  {
    var t := TargetDimension(width, height, maxW);
    var m := Max(width, height);
    Shrinks(width, m, maxW, t.width);
    Shrinks(height, m, maxW, t.height);
  }

  lemma Shrinks(side: nat, maxEdge: nat, maxW: nat, t: nat)
    requires maxW < maxEdge
    requires t * maxEdge <= side * maxW
    ensures t <= side
  {
    assert side * maxW <= side * maxEdge;
    CancelLe(t, side, maxEdge);
  }

  lemma MulLe(a: int, b: int, c: nat)
    requires a <= b
    ensures a * c <= b * c
  {
  }

  lemma MulLt(a: int, b: int, c: nat)
    requires a < b && c > 0
    ensures a * c < b * c
  {
  }

  lemma Rearrange(side: nat, other: nat, m: nat, maxW: nat, t: nat)
    ensures (t * m) * other == m * (t * other)
    ensures (side * maxW) * other == side * other * maxW
    ensures ((t + 1) * m) * other == m * (t * other) + m * other
  {
  }

  /** Scaling the bracket `t * m <= side * maxW < (t + 1) * m` by the other edge. */
  lemma Bracket(side: nat, other: nat, m: nat, maxW: nat, t: nat)
    requires m > 0 && other > 0
    requires t * m <= side * maxW < (t + 1) * m
    ensures side * other * maxW - m * other < m * (t * other) <= side * other * maxW
  {
    MulLe(t * m, side * maxW, other);
    MulLt(side * maxW, (t + 1) * m, other);
    Rearrange(side, other, m, maxW, t);
  }

  /** Aspect ratio is kept up to truncation: the cross products `targetW * height` and
      `targetH * width` differ by less than the longer edge. */
  lemma {:induction false} AspectRatioKept(width: nat, height: nat, maxW: nat)
    requires Max(width, height) > 0
    ensures var t := TargetDimension(width, height, maxW);
            var d := (t.width * height) as int - (t.height * width) as int;
            -(Max(width, height) as int) < d < Max(width, height)
  {
    var t := TargetDimension(width, height, maxW);
    var m := Max(width, height);
    var d := (t.width * height) as int - (t.height * width) as int;
    if width == 0 {
      assert t.width == 0;
      assert d == 0;
    } else if height == 0 {
      assert t.height == 0;
      assert d == 0;
    } else {
      Bracket(width, height, m, maxW, t.width);
      Bracket(height, width, m, maxW, t.height);
      assert height * width * maxW == width * height * maxW;
      CrossBound(width, height, m, width * height * maxW, t.width * height, t.height * width);
    }
  }

  /** The arithmetic core of the aspect-ratio bound: `a` and `b` are the two cross
      products, `p` is `width * height * maxW`. */
  lemma CrossBound(width: nat, height: nat, m: nat, p: int, a: int, b: int)
    requires 0 < width <= m && 0 < height <= m
    requires p - m * height < m * a <= p
    requires p - m * width < m * b <= p
    ensures -(m as int) < a - b < m
  {
    var d := a - b;
    assert m * d == m * a - m * b;
    MulLe(height, m, m);
    MulLe(width, m, m);
    assert m * d < m * m;
    assert m * -(m as int) < m * d;
    CancelLt(d, m, m);
    CancelLt(-(m as int), d, m);
  }

  /** The worked example: 4000 x 2000 under a limit of 512 becomes 512 x 256. */
  lemma TargetDimensionExample()
    ensures TargetDimension(4000, 2000, 512) == Dimensions(512, 256)
  {
  }

  /** A logo is too large when either edge exceeds its limit. */
  predicate TooLarge(d: Dimensions, maxW: nat, maxH: nat) {
    d.width > maxW || d.height > maxH
  }

  /** `FixLogo`. `probe` is the outcome of reading the PNG's dimensions, `resizeSucceeds` the
      outcome of resizing it, and `sizeWithinLimit` the outcome of the file-size check, which
      the fixer deliberately ignores. */
  function FixLogo(path: string, maxW: nat, maxH: nat, probe: Option<Dimensions>,
                   resizeSucceeds: bool, sizeWithinLimit: bool): (r: Result<LogoAction>)
    // A failed probe is a hard error.
    ensures probe.None? ==> r == Err(ImageProbeFailed(path))
    // The only other error is a resize that was needed and failed.
    ensures probe.Some? ==>
              (r.Err? <==> TooLarge(probe.value, maxW, maxH) && !resizeSucceeds)
    ensures r.Err? && probe.Some? ==> r == Err(ResizeFailed(path))
    // A resize is requested exactly when the logo is too large...
    ensures r.Ok? ==> probe.Some? && (r.value.Resize? <==> TooLarge(probe.value, maxW, maxH))
    // ...to exactly the target size of calculateTargetDimension.
    ensures r.Ok? && r.value.Resize? ==>
              r.value.target == TargetDimension(probe.value.width, probe.value.height, maxW)
  {
    match probe
    case None => Err(ImageProbeFailed(path))
    case Some(d) =>
      if TooLarge(d, maxW, maxH) then
        var target := TargetDimension(d.width, d.height, maxW);
        if resizeSucceeds then Ok(Resize(target)) else Err(ResizeFailed(path))
      else
        // A file still over the byte limit is tolerated: compression is not implemented.
        Ok(Keep)
  }

  /** The file-size check never changes the outcome. */
  lemma FileSizeIgnored(path: string, maxW: nat, maxH: nat, probe: Option<Dimensions>,
                        resizeSucceeds: bool)
    ensures FixLogo(path, maxW, maxH, probe, resizeSucceeds, true)
         == FixLogo(path, maxW, maxH, probe, resizeSucceeds, false)
  {
  }

  /** The target size uses only maxW: with a smaller height limit, a logo that is too tall
      for maxH but within maxW is scaled until its longer edge is maxW. A square logo is
      enlarged; one whose longer edge is already maxW is resized to its own size. */
  lemma FixLogoEnlargesWhenLimitsDiffer(path: string)
    ensures FixLogo(path, 512, 256, Some(Dimensions(300, 300)), true, true)
         == Ok(Resize(Dimensions(512, 512)))
    ensures FixLogo(path, 512, 256, Some(Dimensions(512, 300)), true, true)
         == Ok(Resize(Dimensions(512, 300)))
  {
  }

  /** When the height limit is at least the width limit, a second run over the logo the
      first run left resizes nothing: both target edges are within maxW. */
  lemma {:induction false} LogoIdempotent(path: string, maxW: nat, maxH: nat, probe: Option<Dimensions>,
                                          resizeSucceeds: bool, sizeWithinLimit: bool,
                                          resizeSucceeds': bool, sizeWithinLimit': bool)
    requires maxW <= maxH
    requires FixLogo(path, maxW, maxH, probe, resizeSucceeds, sizeWithinLimit).Ok?
    ensures var after := match FixLogo(path, maxW, maxH, probe, resizeSucceeds, sizeWithinLimit).value
                         case Keep => probe.value
                         case Resize(t) => t;
            FixLogo(path, maxW, maxH, Some(after), resizeSucceeds', sizeWithinLimit') == Ok(Keep)
  {
  }
}
