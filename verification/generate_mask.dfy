/**
 * `ExtractMaskAsset.GenerateMask`: the per-pixel HSV-distance classifier.
 * A texture is an `array2<Color>` indexed `[x, y]`: `Length0` is its width
 * and `Length1` its height. Unity's `Color.RGBToHSV` is not part of this
 * model; every member takes it as a parameter `toHsv`.
 */
module ExtractMaskAsset {
  import opened MaskTypes

  /** Hue, saturation and value as `Color.RGBToHSV` returns them. */
  datatype Hsv = Hsv(h: real, s: real, v: real)

  /** The colour every pixel is cleared to: transparent black. */
  const InvisibleColor: Color := Color(0.0, 0.0, 0.0, 0.0)

  /** `Mathf.Pow(x, 2)`. */
  function Square(x: real): real
  {
    x * x
  }

  /** Weighted squared HSV distance of `pixel` to the rule's reference colour (hue taken linearly, no wrap-around). */
  function Distance(rule: PickedColor, pixel: Hsv, toHsv: Color -> Hsv): real
  {
    var original := toHsv(rule.color);
    Square((original.h - pixel.h) * rule.hCoeff) +
    Square((original.s - pixel.s) * rule.sCoeff) +
    Square((original.v - pixel.v) * rule.vCoeff)
  }

  /** A source pixel matches a rule when its distance is at most the squared threshold. */
  predicate Matches(rule: PickedColor, c: Color, toHsv: Color -> Hsv)
  {
    Distance(rule, toHsv(c), toHsv) <= Square(rule.threshold)
  }

  /** What a matched pixel is written as: the source pixel, or `(v, v, v, a)` when desaturating. */
  function MatchedColor(c: Color, desaturate: bool, toHsv: Color -> Hsv): Color
  {
    if desaturate then
      var v := toHsv(c).v;
      Color(v, v, v, c.a)
    else c
  }

  /** One rule's pass over one pixel: overwrite on a match, keep the current value otherwise. */
  function Paint(current: Color, rule: PickedColor, c: Color, desaturate: bool, toHsv: Color -> Hsv): Color
  {
    if Matches(rule, c, toHsv) then MatchedColor(c, desaturate, toHsv) else current
  }

  /** A pixel after clearing and then one full pass per rule, in order: what the loops compute. */
  function Layered(rules: seq<PickedColor>, c: Color, desaturate: bool, toHsv: Color -> Hsv): Color
  {
    if rules == [] then InvisibleColor
    else Paint(Layered(rules[..|rules| - 1], c, desaturate, toHsv), rules[|rules| - 1], c, desaturate, toHsv)
  }

  predicate AnyMatches(rules: seq<PickedColor>, c: Color, toHsv: Color -> Hsv)
  {
    exists i :: 0 <= i < |rules| && Matches(rules[i], c, toHsv)
  }

  /** The mask's pixel stated directly: the matched colour if any rule matches, else transparent. */
  function MaskPixel(rules: seq<PickedColor>, c: Color, desaturate: bool, toHsv: Color -> Hsv): Color
  {
    if AnyMatches(rules, c, toHsv) then MatchedColor(c, desaturate, toHsv) else InvisibleColor
  }

  predicate SameSize(a: array2<Color>, b: array2<Color>)
  {
    a.Length0 == b.Length0 && a.Length1 == b.Length1
  }

  /** `t` is the mask of `source` under `rules`, pixel by pixel. */
  ghost predicate IsMask(t: array2<Color>, source: array2<Color>, rules: seq<PickedColor>, desaturate: bool, toHsv: Color -> Hsv)
    reads t, source
  {
    && SameSize(t, source)
    && forall x, y :: 0 <= x < t.Length0 && 0 <= y < t.Length1 ==>
         t[x, y] == MaskPixel(rules, source[x, y], desaturate, toHsv)
  }

  /** Adding one more pass to the passes made so far. */
  lemma LayeredStep(rules: seq<PickedColor>, k: nat, c: Color, desaturate: bool, toHsv: Color -> Hsv)
    requires k < |rules|
    ensures Layered(rules[..k + 1], c, desaturate, toHsv) == Paint(Layered(rules[..k], c, desaturate, toHsv), rules[k], c, desaturate, toHsv)
  {
    assert rules[..k + 1][..k] == rules[..k];
  }

  /** The sequential passes agree with the any-rule-matches definition: the value written never depends on which rule matched. */
  lemma {:induction false} LayeredIsMaskPixel(rules: seq<PickedColor>, c: Color, desaturate: bool, toHsv: Color -> Hsv)
    ensures Layered(rules, c, desaturate, toHsv) == MaskPixel(rules, c, desaturate, toHsv)
  {
    if rules != [] {
      var init := rules[..|rules| - 1];
      var last := rules[|rules| - 1];
      LayeredIsMaskPixel(init, c, desaturate, toHsv);
      if Matches(last, c, toHsv) {
        assert AnyMatches(rules, c, toHsv);
      } else if AnyMatches(init, c, toHsv) {
        var i :| 0 <= i < |init| && Matches(init[i], c, toHsv);
        assert rules[i] == init[i];
      } else {
        forall i | 0 <= i < |rules|
          ensures !Matches(rules[i], c, toHsv)
        {
          if i < |init| { assert rules[i] == init[i]; }
        }
      }
    }
  }

  /**
   * Per-pixel outcome of the passes: transparent black when no rule matches;
   * otherwise the source pixel, or grey `(v, v, v)` with the source alpha
   * when desaturating.
   */
  lemma PixelOutcome(rules: seq<PickedColor>, c: Color, desaturate: bool, toHsv: Color -> Hsv)
    ensures !AnyMatches(rules, c, toHsv) ==> Layered(rules, c, desaturate, toHsv) == Color(0.0, 0.0, 0.0, 0.0)
    ensures AnyMatches(rules, c, toHsv) && !desaturate ==> Layered(rules, c, desaturate, toHsv) == c
    ensures AnyMatches(rules, c, toHsv) && desaturate ==>
              var r := Layered(rules, c, desaturate, toHsv);
              r.r == r.g == r.b == toHsv(c).v && r.a == c.a
  {
    LayeredIsMaskPixel(rules, c, desaturate, toHsv);
  }

  /** The last rule that matches decides the pixel (last rule wins). */
  lemma LastMatchWins(rules: seq<PickedColor>, rule: PickedColor, c: Color, desaturate: bool, toHsv: Color -> Hsv)
    requires Matches(rule, c, toHsv)
    ensures Layered(rules + [rule], c, desaturate, toHsv) == MatchedColor(c, desaturate, toHsv)
  {
    assert (rules + [rule])[..|rules|] == rules;
  }

  lemma SomeRuleMatchesIn(rules1: seq<PickedColor>, rules2: seq<PickedColor>, c: Color, toHsv: Color -> Hsv)
    requires forall r :: r in rules1 ==> r in rules2
    requires AnyMatches(rules1, c, toHsv)
    ensures AnyMatches(rules2, c, toHsv)
  {
    var i :| 0 <= i < |rules1| && Matches(rules1[i], c, toHsv);
    assert rules1[i] in rules2;
    var j :| 0 <= j < |rules2| && rules2[j] == rules1[i];
  }

  /** Reordering or duplicating rules leaves every pixel unchanged: only the set of rules counts. */
  lemma RuleOrderIrrelevant(rules1: seq<PickedColor>, rules2: seq<PickedColor>, c: Color, desaturate: bool, toHsv: Color -> Hsv)
    requires forall r :: r in rules1 <==> r in rules2
    ensures Layered(rules1, c, desaturate, toHsv) == Layered(rules2, c, desaturate, toHsv)
  {
    LayeredIsMaskPixel(rules1, c, desaturate, toHsv);
    LayeredIsMaskPixel(rules2, c, desaturate, toHsv);
    if AnyMatches(rules1, c, toHsv) {
      SomeRuleMatchesIn(rules1, rules2, c, toHsv);
    }
    if AnyMatches(rules2, c, toHsv) {
      SomeRuleMatchesIn(rules2, rules1, c, toHsv);
    }
  }

  /** A pixel whose HSV equals the rule's reference HSV always matches, whatever the threshold. */
  lemma ReferenceColorMatches(rule: PickedColor, c: Color, toHsv: Color -> Hsv)
    requires toHsv(c) == toHsv(rule.color)
    ensures Matches(rule, c, toHsv)
  {
    assert Square(rule.threshold) >= 0.0;
  }

  /** With all three weights zero, every pixel matches. */
  lemma ZeroWeightsMatchAll(rule: PickedColor, c: Color, toHsv: Color -> Hsv)
    requires rule.hCoeff == 0.0 && rule.sCoeff == 0.0 && rule.vCoeff == 0.0
    ensures Matches(rule, c, toHsv)
  {
    assert Square(rule.threshold) >= 0.0;
  }

  lemma SquareBelow(t: real, u: real)
    requires 0.0 <= t < u
    ensures Square(t) < Square(u)
  {
    var d := u - t;
    assert u * u == (t + d) * (t + d) == t * t + 2.0 * t * d + d * d;
    assert t * d >= 0.0;
    assert d * d > 0.0;
  }

  /**
   * Hue is compared as a plain number: hues 0.01 and 0.99, which lie next to
   * each other on the colour wheel, are 0.98 apart.
   */
  lemma HueDoesNotWrap(rule: PickedColor, c: Color, toHsv: Color -> Hsv)
    requires toHsv(rule.color).h == 0.01 && toHsv(c).h == 0.99
    requires toHsv(rule.color).s == toHsv(c).s && toHsv(rule.color).v == toHsv(c).v
    requires rule.hCoeff == 1.0 && 0.0 <= rule.threshold < 0.98
    ensures !Matches(rule, c, toHsv)
  {
    SquareBelow(rule.threshold, 0.98);
    var o, p := toHsv(rule.color), toHsv(c);
    assert (o.h - p.h) * rule.hCoeff == -0.98;
    assert (o.s - p.s) * rule.sCoeff == 0.0 && (o.v - p.v) * rule.vCoeff == 0.0;
    assert Distance(rule, p, toHsv) == Square(-0.98);
  }

  /**
   * A red and a blue pixel against one tight red rule: red is kept (as white
   * when desaturating, since red's value is 1) and blue becomes transparent.
   */
  lemma RedBlueScenario(toHsv: Color -> Hsv)
    requires toHsv(Color(1.0, 0.0, 0.0, 1.0)) == Hsv(0.0, 1.0, 1.0)
    requires toHsv(Color(0.0, 0.0, 1.0, 1.0)) == Hsv(2.0 / 3.0, 1.0, 1.0)
    ensures var rules := [PickedColor(Color(1.0, 0.0, 0.0, 1.0), 0.01, 1.0, 1.0, 1.0)];
            && Layered(rules, Color(1.0, 0.0, 0.0, 1.0), false, toHsv) == Color(1.0, 0.0, 0.0, 1.0)
            && Layered(rules, Color(0.0, 0.0, 1.0, 1.0), false, toHsv) == Color(0.0, 0.0, 0.0, 0.0)
            && Layered(rules, Color(1.0, 0.0, 0.0, 1.0), true, toHsv) == Color(1.0, 1.0, 1.0, 1.0)
            && Layered(rules, Color(0.0, 0.0, 1.0, 1.0), true, toHsv) == Color(0.0, 0.0, 0.0, 0.0)
  {
    var rules := [PickedColor(Color(1.0, 0.0, 0.0, 1.0), 0.01, 1.0, 1.0, 1.0)];
    assert rules[..0] == [];
  }

  /** The clearing loops of `GenerateMask`: every pixel becomes `InvisibleColor`. */
  method Clear(t: array2<Color>)
    modifies t
    ensures forall x, y :: 0 <= x < t.Length0 && 0 <= y < t.Length1 ==> t[x, y] == InvisibleColor
  {
    var y := 0;
    while y < t.Length1
      invariant 0 <= y <= t.Length1
      invariant forall x', y' :: 0 <= x' < t.Length0 && 0 <= y' < y ==> t[x', y'] == InvisibleColor
    {
      var x := 0;
      while x < t.Length0
        invariant 0 <= x <= t.Length0
        invariant forall x', y' :: 0 <= x' < t.Length0 && 0 <= y' < y ==> t[x', y'] == InvisibleColor
        invariant forall x' :: 0 <= x' < x ==> t[x', y] == InvisibleColor
      {
        t[x, y] := InvisibleColor;
        x := x + 1;
      }
      y := y + 1;
    }
  }

  /** One rule's full pass of `GenerateMask` over the image, rows in order. */
  method ApplyRule(t: array2<Color>, source: array2<Color>, rule: PickedColor, desaturate: bool, toHsv: Color -> Hsv)
    requires SameSize(t, source) && t != source
    modifies t
    ensures forall x, y :: 0 <= x < t.Length0 && 0 <= y < t.Length1 ==>
              t[x, y] == Paint(old(t[x, y]), rule, source[x, y], desaturate, toHsv)
  {
    var y := 0;
    while y < t.Length1
      invariant 0 <= y <= t.Length1
      invariant forall x', y' :: 0 <= x' < t.Length0 && 0 <= y' < y ==>
                  t[x', y'] == Paint(old(t[x', y']), rule, source[x', y'], desaturate, toHsv)
      invariant forall x', y' :: 0 <= x' < t.Length0 && y <= y' < t.Length1 ==> t[x', y'] == old(t[x', y'])
    {
      ApplyRuleToRow(t, source, rule, desaturate, toHsv, y);
      y := y + 1;
    }
  }

  /** The inner loop of one rule's pass: row `y`, pixel by pixel; the other rows are left alone. */
  method ApplyRuleToRow(t: array2<Color>, source: array2<Color>, rule: PickedColor, desaturate: bool, toHsv: Color -> Hsv, y: nat)
    requires SameSize(t, source) && t != source && y < t.Length1
    modifies t
    ensures forall x :: 0 <= x < t.Length0 ==> t[x, y] == Paint(old(t[x, y]), rule, source[x, y], desaturate, toHsv)
    ensures forall x', y' :: 0 <= x' < t.Length0 && 0 <= y' < t.Length1 && y' != y ==> t[x', y'] == old(t[x', y'])
  {
    var original := toHsv(rule.color);
    var x := 0;
    while x < t.Length0
      invariant 0 <= x <= t.Length0
      invariant forall x' :: 0 <= x' < x ==> t[x', y] == Paint(old(t[x', y]), rule, source[x', y], desaturate, toHsv)
      invariant forall x', y' :: 0 <= x' < t.Length0 && 0 <= y' < t.Length1 && (y' != y || x <= x') ==>
                  t[x', y'] == old(t[x', y'])
    {
      var color := source[x, y];
      var newColor := color;
      var hsv := toHsv(color);
      var distance := Square((original.h - hsv.h) * rule.hCoeff) +
                      Square((original.s - hsv.s) * rule.sCoeff) +
                      Square((original.v - hsv.v) * rule.vCoeff);
      assert distance <= Square(rule.threshold) <==> Matches(rule, color, toHsv);
      if distance <= Square(rule.threshold) {
        if desaturate {
          newColor := Color(hsv.v, hsv.v, hsv.v, color.a);
        }
        t[x, y] := newColor;
      }
      x := x + 1;
    }
  }

  /**
   * `GenerateMask(texture, reuseTexture, mask)` with the asset's `desaturate`
   * flag: nothing (null) for a null texture or a null or empty mask name, with
   * no buffer touched; otherwise `reuseTexture`, or a fresh texture of the
   * source's size when it is null, holding the mask of `texture` pixel by pixel.
   */
  method GenerateMask(texture: array2?<Color>, reuseTexture: array2?<Color>, mask: MaskInfo, desaturate: bool, toHsv: Color -> Hsv)
    returns (t: array2?<Color>)
    requires texture != null && reuseTexture != null ==> SameSize(reuseTexture, texture) && reuseTexture != texture
    requires texture != null && !IsNullOrEmpty(mask.name) ==> mask.pickedColors.Some?
    modifies reuseTexture
    ensures t == null <==> texture == null || IsNullOrEmpty(mask.name)
    ensures t == null && reuseTexture != null ==> unchanged(reuseTexture)
    ensures t != null && reuseTexture == null ==> fresh(t)
    ensures t != null && reuseTexture != null ==> t == reuseTexture
    ensures t != null ==> texture != null && mask.pickedColors.Some? && IsMask(t, texture, mask.pickedColors.value, desaturate, toHsv)
  {
    if texture == null || IsNullOrEmpty(mask.name) {
      return null;
    }
    var tex: array2<Color>;
    if reuseTexture == null {
      tex := new Color[texture.Length0, texture.Length1];
    } else {
      tex := reuseTexture;
    }
    Clear(tex);
    var rules := mask.pickedColors.value;
    var k := 0;
    while k < |rules|
      invariant 0 <= k <= |rules|
      invariant forall x, y :: 0 <= x < tex.Length0 && 0 <= y < tex.Length1 ==>
                  tex[x, y] == Layered(rules[..k], texture[x, y], desaturate, toHsv)
    {
      ApplyRule(tex, texture, rules[k], desaturate, toHsv);
      forall x, y | 0 <= x < tex.Length0 && 0 <= y < tex.Length1
        ensures tex[x, y] == Layered(rules[..k + 1], texture[x, y], desaturate, toHsv)
      {
        LayeredStep(rules, k, texture[x, y], desaturate, toHsv);
      }
      k := k + 1;
    }

    assert rules[..k] == rules;
    forall x, y | 0 <= x < tex.Length0 && 0 <= y < tex.Length1
      ensures tex[x, y] == MaskPixel(rules, texture[x, y], desaturate, toHsv)
    {
      LayeredIsMaskPixel(rules, texture[x, y], desaturate, toHsv);
    }
    t := tex;
  }
}
