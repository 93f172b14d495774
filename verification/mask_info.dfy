/**
 * The two value types of the asset: a picked colour (one classification rule)
 * and a mask definition (a name and an ordered list of rules), with the
 * structural `Equals` and the copy constructors the editor's snapshot uses.
 * C# `null` is `None`; Unity's float channels and weights are reals.
 */
module MaskTypes {
  import opened Wrappers

  /** Unity's `Color`: four channels, compared channel by channel. */
  datatype Color = Color(r: real, g: real, b: real, a: real)

  /** `string.IsNullOrEmpty`. */
  predicate IsNullOrEmpty(s: Option<string>)
  {
    s.None? || s.value == ""
  }

  /** `ExtractMaskAsset.MaskInfo.PickedColor`: a reference colour, a threshold and three channel weights. */
  datatype PickedColor = PickedColor(color: Color, threshold: real, hCoeff: real, sCoeff: real, vCoeff: real)
  {
    /** `PickedColor.Equals`: all five fields compared by value. */
    function Equals(other: PickedColor): (r: bool)
      ensures r <==> this == other
    {
      color == other.color &&
      threshold == other.threshold &&
      hCoeff == other.hCoeff &&
      sCoeff == other.sCoeff &&
      vCoeff == other.vCoeff
    }

    /** The copy constructor `PickedColor(PickedColor other)`. */
    function Copy(): (r: PickedColor)
      ensures r.Equals(this)
    {
      PickedColor(color, threshold, hCoeff, sCoeff, vCoeff)
    }
  }

  /** `ExtractMaskAsset.MaskInfo`: a mask name and its rules; either may be null. */
  datatype MaskInfo = MaskInfo(name: Option<string>, pickedColors: Option<seq<PickedColor>>)
  {
    /** `pickedColors == null || pickedColors.Length <= 0`. */
    predicate HasNoColors()
    {
      pickedColors.None? || |pickedColors.value| == 0
    }

    /**
     * `Equals(other)` runs to completion: it does not call `name.Equals` on a
     * null name, and it does not read `Length` of a null array once the
     * emptiness tests agree.
     */
    predicate CanCompareWith(other: MaskInfo)
    {
      && !(name.None? && IsNullOrEmpty(other.name))
      && (name == other.name && HasNoColors() == other.HasNoColors() ==>
            pickedColors.Some? && other.pickedColors.Some?)
    }

    /** `MaskInfo.Equals`, with its early returns in the source's order. */
    function Equals(other: MaskInfo): (r: bool)
      requires CanCompareWith(other)
      ensures r <==> this == other
    {
      if IsNullOrEmpty(name) != IsNullOrEmpty(other.name) then false
      else if name != other.name then false
      else if HasNoColors() != other.HasNoColors() then false
      else if |pickedColors.value| != |other.pickedColors.value| then false
      else ColorsEqualFrom(pickedColors.value, other.pickedColors.value, 0)
    }

    /** The copy constructor `MaskInfo(MaskInfo other)`: a null rule array becomes an empty one. */
    function Copy(): (r: MaskInfo)
      ensures r.name == name && r.pickedColors.Some?
      ensures pickedColors.None? ==> r.pickedColors.value == []
      ensures pickedColors.Some? ==>
                |r.pickedColors.value| == |pickedColors.value| &&
                forall i :: 0 <= i < |pickedColors.value| ==> r.pickedColors.value[i].Equals(pickedColors.value[i])
      ensures pickedColors.Some? ==> r == this
    {
      MaskInfo(name, Some(if pickedColors.None? then [] else CopyColors(pickedColors.value)))
    }
  }

  /** The `for` loop of `MaskInfo.Equals` from index `i` on: element-wise `PickedColor.Equals`. */
  function ColorsEqualFrom(a: seq<PickedColor>, b: seq<PickedColor>, i: nat): (r: bool)
    requires |a| == |b| && i <= |a|
    ensures r <==> a[i..] == b[i..]
    decreases |a| - i
  {
    if i == |a| then true
    else if !a[i].Equals(b[i]) then false
    else
      assert a[i..] == [a[i]] + a[i + 1..] && b[i..] == [b[i]] + b[i + 1..];
      ColorsEqualFrom(a, b, i + 1)
  }

  /** The `foreach` loop of the `MaskInfo` copy constructor: a new `PickedColor` per element, in order. */
  function CopyColors(s: seq<PickedColor>): (r: seq<PickedColor>)
    ensures r == s
  {
    if s == [] then [] else [s[0].Copy()] + CopyColors(s[1..])
  }

  /**
   * Two mask definitions compare equal exactly when they carry the same name,
   * the same number of rules and pairwise equal rules.
   */
  lemma EqualsIffFieldwise(m: MaskInfo, other: MaskInfo)
    requires m.CanCompareWith(other)
    ensures m.Equals(other) <==>
              && m.name == other.name
              && m.pickedColors.Some? && other.pickedColors.Some?
              && |m.pickedColors.value| == |other.pickedColors.value|
              && forall i :: 0 <= i < |m.pickedColors.value| ==> m.pickedColors.value[i].Equals(other.pickedColors.value[i])
  {
    if m.Equals(other) {
      assert m == other;
    } else if m.name == other.name && m.pickedColors.Some? && other.pickedColors.Some?
              && |m.pickedColors.value| == |other.pickedColors.value| {
      var a, b := m.pickedColors.value, other.pickedColors.value;
      assert a != b;
      var i :| 0 <= i < |a| && a[i] != b[i];
      assert !a[i].Equals(b[i]);
    }
  }

  /**
   * A copy compares equal to its original (in both directions) when the
   * original has a name and a rule array; it is structurally identical to the
   * original exactly when the original's rule array is not null.
   */
  lemma CopyEqualsOriginal(m: MaskInfo)
    requires m.name.Some? && m.pickedColors.Some?
    ensures m.Copy().CanCompareWith(m) && m.Copy().Equals(m)
    ensures m.CanCompareWith(m.Copy()) && m.Equals(m.Copy())
  {
  }

  lemma CopyIdenticalIff(m: MaskInfo)
    ensures m.Copy() == m <==> m.pickedColors.Some?
  {
  }
}
