/**
 * `CreateMaskAssetEditor`: the inspector's cache of generated masks. It keeps
 * one texture per mask name, a deep-copied snapshot of the mask definitions
 * and the `desaturate` and `previewHeight` settings the textures were made
 * with, and regenerates only the masks whose definition changed.
 */
module MaskEditor {
  import opened Wrappers
  import opened MaskTypes
  import opened ExtractMaskAsset

  /** The fields of the edited `ExtractMaskAsset` that the editor reads; `masks` may be null. */
  datatype AssetSettings = AssetSettings(masks: Option<seq<MaskInfo>>, desaturate: bool, previewHeight: int)

  predicate Distinct<T(==)>(s: seq<T>)
  {
    forall i, j :: 0 <= i < j < |s| ==> s[i] != s[j]
  }

  /** A name list as `GenerateNeededMasks` walks it: no repeats, no empty name. */
  predicate ProperNames(names: seq<string>)
  {
    Distinct(names) && forall k :: 0 <= k < |names| ==> names[k] != ""
  }

  lemma ProperTail(names: seq<string>)
    requires ProperNames(names) && names != []
    ensures ProperNames(names[1..]) && names[0] != "" && names[0] !in names[1..]
    ensures forall n :: n in names <==> n == names[0] || n in names[1..]
  {
  }

  /** `masks.Find(m => name.Equals(m.name))`: the first definition carrying `name`. */
  function FindByName(masks: seq<MaskInfo>, name: string): (r: Option<MaskInfo>)
    ensures r.None? <==> forall i :: 0 <= i < |masks| ==> masks[i].name != Some(name)
    ensures r.Some? ==> r.value in masks && r.value.name == Some(name)
    ensures r.Some? ==> exists i :: 0 <= i < |masks| && masks[i] == r.value &&
                                    forall j :: 0 <= j < i ==> masks[j].name != Some(name)
  {
    if masks == [] then None
    else if masks[0].name == Some(name) then Some(masks[0])
    else
      var r := FindByName(masks[1..], name);
      assert forall i :: 1 <= i < |masks| ==> masks[i] == masks[1..][i - 1];
      r
  }

  /** The distinct non-null, non-empty names among `masks`. */
  function ActiveNames(masks: seq<MaskInfo>): set<string>
  {
    set i | 0 <= i < |masks| && !IsNullOrEmpty(masks[i].name) :: masks[i].name.value
  }

  /** `masks.ConvertAll(m => m.name)`. */
  function NameList(masks: seq<MaskInfo>): (r: seq<Option<string>>)
    ensures |r| == |masks| && forall i :: 0 <= i < |masks| ==> r[i] == masks[i].name
  {
    seq(|masks|, i requires 0 <= i < |masks| => masks[i].name)
  }

  /** `names.RemoveAll(string.IsNullOrEmpty)`: the non-null, non-empty names remain. */
  function RemoveNullOrEmpty(names: seq<Option<string>>): (r: seq<string>)
    ensures forall n :: n in r <==> n != "" && Some(n) in names
    ensures Distinct(names) ==> Distinct(r)
  {
    if names == [] then []
    else
      var rest := RemoveNullOrEmpty(names[1..]);
      assert forall o :: o in names <==> o == names[0] || o in names[1..];
      assert Distinct(names) ==> Distinct(names[1..]) && names[0] !in names[1..];
      if IsNullOrEmpty(names[0]) then rest else [names[0].value] + rest
  }

  /** The first definition of every active name has a rule array (`GenerateMask` enumerates it). */
  predicate FirstDefinitionsHaveColors(masks: seq<MaskInfo>)
  {
    forall i :: 0 <= i < |masks| && !IsNullOrEmpty(masks[i].name) &&
                (forall j :: 0 <= j < i ==> masks[j].name != masks[i].name) ==>
                  masks[i].pickedColors.Some?
  }

  /** `cached.Exists(m => m.Equals(mask))` runs to completion, scanning `cached` in order. */
  predicate SearchSafe(cached: seq<MaskInfo>, mask: MaskInfo)
  {
    cached == [] ||
    (cached[0].CanCompareWith(mask) && (!cached[0].Equals(mask) ==> SearchSafe(cached[1..], mask)))
  }

  /** `cached.Exists(m => m.Equals(mask))`. */
  function ExistsEqual(cached: seq<MaskInfo>, mask: MaskInfo): (r: bool)
    requires SearchSafe(cached, mask)
    ensures r <==> mask in cached
  {
    if cached == [] then false
    else if cached[0].Equals(mask) then true
    else
      var r := ExistsEqual(cached[1..], mask);
      assert forall o :: o in cached <==> o == cached[0] || o in cached[1..];
      r
  }

  /** The `foreach` over `masks` in `IsSettingsChanged` runs to completion; it stops at the first mask with no equal in `cached`. */
  predicate ScanSafe(cached: seq<MaskInfo>, masks: seq<MaskInfo>)
  {
    masks == [] ||
    (SearchSafe(cached, masks[0]) && (ExistsEqual(cached, masks[0]) ==> ScanSafe(cached, masks[1..])))
  }

  /** What `IsSettingsChanged` takes for "no definition changed": equal counts and every current mask equal to some cached one. */
  predicate SnapshotMatches(cached: seq<MaskInfo>, masks: Option<seq<MaskInfo>>)
  {
    masks.Some? && |cached| == |masks.value| &&
    forall i :: 0 <= i < |masks.value| ==> masks.value[i] in cached
  }

  /** No two entries alike, and no two active entries sharing a name. */
  predicate UniqueDefinitions(masks: seq<MaskInfo>)
  {
    && Distinct(masks)
    && forall i, j :: 0 <= i < j < |masks| && !IsNullOrEmpty(masks[i].name) ==> masks[i].name != masks[j].name
  }

  lemma ActiveNamesMembership(masks: seq<MaskInfo>, n: string)
    ensures n in ActiveNames(masks) <==> n != "" && FindByName(masks, n).Some?
    ensures n in ActiveNames(masks) <==> n != "" && Some(n) in NameList(masks)
  {
    if n != "" && FindByName(masks, n).Some? {
      var i :| 0 <= i < |masks| && masks[i] == FindByName(masks, n).value;
      assert masks[i].name.value == n;
    }
    if n != "" && Some(n) in NameList(masks) {
      var i :| 0 <= i < |masks| && NameList(masks)[i] == Some(n);
      assert masks[i].name.value == n;
    }
  }

  /** Looking a name up in the snapshot finds the copy of what it finds in the masks. */
  lemma {:induction false} FindByNameInCopies(masks: seq<MaskInfo>, copies: seq<MaskInfo>, n: string)
    requires |copies| == |masks| && forall i :: 0 <= i < |masks| ==> copies[i] == masks[i].Copy()
    ensures FindByName(copies, n).Some? <==> FindByName(masks, n).Some?
    ensures FindByName(masks, n).Some? ==> FindByName(copies, n).value == FindByName(masks, n).value.Copy()
  {
    if masks != [] {
      FindByNameInCopies(masks[1..], copies[1..], n);
    }
  }

  /** Looking a name's rules up in the snapshot gives the rules it has in the masks. */
  lemma RulesOfCopies(masks: seq<MaskInfo>, copies: seq<MaskInfo>, n: string)
    requires |copies| == |masks| && forall i :: 0 <= i < |masks| ==> copies[i] == masks[i].Copy()
    ensures RulesOf(copies, n) == RulesOf(masks, n)
  {
    FindByNameInCopies(masks, copies, n);
  }

  lemma ActiveNamesOfCopies(masks: seq<MaskInfo>, copies: seq<MaskInfo>)
    requires |copies| == |masks| && forall i :: 0 <= i < |masks| ==> copies[i] == masks[i].Copy()
    ensures ActiveNames(copies) == ActiveNames(masks)
  {
    forall n ensures n in ActiveNames(copies) <==> n in ActiveNames(masks) {
      ActiveNamesMembership(masks, n);
      ActiveNamesMembership(copies, n);
      FindByNameInCopies(masks, copies, n);
    }
  }

  function Elements(s: seq<MaskInfo>): set<MaskInfo>
  {
    set x | x in s
  }

  lemma {:induction false} ElementsCard(s: seq<MaskInfo>)
    ensures |Elements(s)| <= |s|
    ensures Distinct(s) ==> |Elements(s)| == |s|
  {
    if s != [] {
      ElementsCard(s[1..]);
      assert Elements(s) == {s[0]} + Elements(s[1..]);
      assert Distinct(s) ==> Distinct(s[1..]) && s[0] !in Elements(s[1..]);
    }
  }

  /** A snapshot that `IsSettingsChanged` accepts holds exactly the current entries when those are distinct. */
  lemma SnapshotHoldsExactlyMasks(cached: seq<MaskInfo>, masks: seq<MaskInfo>)
    requires Distinct(masks) && SnapshotMatches(cached, Some(masks))
    ensures Elements(cached) == Elements(masks)
  {
    var a, b := Elements(masks), Elements(cached);
    assert a <= b;
    ElementsCard(masks);
    ElementsCard(cached);
    assert b == a + (b - a);
    assert |b| == |a| + |b - a|;
  }

  lemma SameActiveNameSameEntry(masks: seq<MaskInfo>, i: nat, j: nat)
    requires UniqueDefinitions(masks) && i < |masks| && j < |masks|
    requires !IsNullOrEmpty(masks[i].name) && masks[i].name == masks[j].name
    ensures i == j
  {
  }

  /**
   * When the current definitions are unique, a snapshot that `IsSettingsChanged`
   * accepts has the same active names and the same first definition per name.
   */
  lemma UnchangedSnapshotAgrees(cached: seq<MaskInfo>, masks: seq<MaskInfo>)
    requires UniqueDefinitions(masks) && SnapshotMatches(cached, Some(masks))
    ensures ActiveNames(cached) == ActiveNames(masks)
    ensures forall n :: n != "" ==> FindByName(cached, n) == FindByName(masks, n)
  {
    SnapshotHoldsExactlyMasks(cached, masks);
    forall n | n != ""
      ensures FindByName(cached, n) == FindByName(masks, n)
    {
      var c, m := FindByName(cached, n), FindByName(masks, n);
      if m.Some? {
        assert m.value in Elements(cached);
      }
      if c.Some? {
        assert c.value in Elements(masks);
      }
      if c.Some? && m.Some? {
        var i :| 0 <= i < |masks| && masks[i] == c.value;
        var j :| 0 <= j < |masks| && masks[j] == m.value;
        SameActiveNameSameEntry(masks, i, j);
      }
    }
    forall n ensures n in ActiveNames(cached) <==> n in ActiveNames(masks) {
      ActiveNamesMembership(masks, n);
      ActiveNamesMembership(cached, n);
    }
  }

  /**
   * Without unique definitions the check can miss an edit: after a snapshot
   * of masks `x` and `y`, changing `y` into a second `x` leaves counts equal
   * and every current mask in the snapshot, though `y` no longer exists.
   */
  lemma DuplicateEntryHidesRemoval(rules: seq<PickedColor>)
    ensures var x := MaskInfo(Some("x"), Some(rules));
            var y := MaskInfo(Some("y"), Some(rules));
            SnapshotMatches([x, y], Some([x, x])) && ActiveNames([x, y]) != ActiveNames([x, x])
  {
    var x := MaskInfo(Some("x"), Some(rules));
    var y := MaskInfo(Some("y"), Some(rules));
    assert "y" in ActiveNames([x, y]) by { assert [x, y][1].name.value == "y"; }
    assert "y" !in ActiveNames([x, x]);
  }

  /**
   * Nor can it see two active entries sharing a name being swapped: the
   * counts agree and both entries are in the snapshot, but the first
   * definition of the name, whose rules the buffer shows, is now the other one.
   */
  lemma ReorderedNameHidesEdit(rules1: seq<PickedColor>, rules2: seq<PickedColor>)
    requires rules1 != rules2
    ensures var a1 := MaskInfo(Some("a"), Some(rules1));
            var a2 := MaskInfo(Some("a"), Some(rules2));
            && Distinct([a1, a2])
            && SnapshotMatches([a1, a2], Some([a2, a1]))
            && RulesOf([a1, a2], "a") == rules1
            && RulesOf([a2, a1], "a") == rules2
  {
    var a1 := MaskInfo(Some("a"), Some(rules1));
    var a2 := MaskInfo(Some("a"), Some(rules2));
    assert [a2, a1][1] == a1 && [a1, a2][1] == a2;
  }

  /** The rules of the first definition of `n`; none when there is no such definition or its rule array is null. */
  function RulesOf(masks: seq<MaskInfo>, n: string): seq<PickedColor>
  {
    var m := FindByName(masks, n);
    if m.Some? && m.value.pickedColors.Some? then m.value.pickedColors.value else []
  }

  /** The snapshot's first definition of `n` is the current one, so the buffer of `n` can be kept. */
  predicate Unedited(masks: seq<MaskInfo>, cached: seq<MaskInfo>, n: string)
  {
    FindByName(masks, n) == FindByName(cached, n)
  }

  /** `CreateMaskAssetEditor`, reduced to its cache state. */
  class CreateMaskAssetEditor {
    /** `Color.RGBToHSV`, which every `GenerateMask` call uses. */
    const toHsv: Color -> Hsv
    /** `_originalTexture.Key`: the asset texture the preview was made from. */
    var originalTexture: array2?<Color>
    /** `_originalTexture.Value`: the scaled preview every mask is generated from. */
    var preview: array2?<Color>
    /** `_generatedTextures`. */
    var generatedTextures: map<string, array2<Color>>
    /** `_cachedMasks`. */
    var cachedMasks: seq<MaskInfo>
    /** `_cachedDesaturate`. */
    var cachedDesaturate: bool
    /** `_cachedHeight`. */
    var cachedHeight: int

    function Buffers(): set<array2<Color>>
      reads this
    {
      generatedTextures.Values
    }

    /** Everything but the dictionary: the preview pair, the snapshot and the recorded modifiers. */
    ghost function Settings(): (array2?<Color>, array2?<Color>, seq<MaskInfo>, bool, int)
      reads this
    {
      (originalTexture, preview, cachedMasks, cachedDesaturate, cachedHeight)
    }

    /** Every name is non-empty and owns its own buffer, sized like the preview and distinct from it. */
    ghost predicate BuffersFit()
      reads this
    {
      && (forall n, m :: n in generatedTextures && m in generatedTextures && n != m ==>
            generatedTextures[n] != generatedTextures[m])
      && (forall n :: n in generatedTextures ==>
            n != "" && preview != null && generatedTextures[n] != preview && SameSize(generatedTextures[n], preview))
    }

    /** The buffers fit, a texture has its preview, and snapshot entries are copies (never a null rule array). */
    ghost predicate Valid()
      reads this
    {
      && BuffersFit()
      && (originalTexture != null ==> preview != null)
      && (forall i :: 0 <= i < |cachedMasks| ==> cachedMasks[i].pickedColors.Some?)
    }

    /**
     * The cache agrees with its snapshot: one buffer per active snapshot name,
     * holding the mask of the preview under that name's first snapshot
     * definition and the cached `desaturate`.
     */
    ghost predicate Coherent()
      reads this, Buffers(), preview
    {
      && generatedTextures.Keys == ActiveNames(cachedMasks)
      && forall n :: n in generatedTextures ==>
           preview != null && IsMask(generatedTextures[n], preview, RulesOf(cachedMasks, n), cachedDesaturate, toHsv)
    }

    /** The buffers show the current masks: one per active name, each the mask of its first definition. */
    ghost predicate ShowsMasksOf(masks: seq<MaskInfo>, desaturate: bool)
      reads this, Buffers(), preview
    {
      && generatedTextures.Keys == ActiveNames(masks)
      && forall n :: n in generatedTextures ==>
           preview != null && IsMask(generatedTextures[n], preview, RulesOf(masks, n), desaturate, toHsv)
    }

    /** The field initialisers: an empty dictionary and list, C# default values elsewhere. */
    constructor (toHsv: Color -> Hsv)
      ensures this.toHsv == toHsv
      ensures originalTexture == null && preview == null
      ensures generatedTextures == map[] && cachedMasks == []
      ensures cachedDesaturate == false && cachedHeight == 0
      ensures Valid() && Coherent()
    {
      this.toHsv := toHsv;
      originalTexture, preview := null, null;
      generatedTextures, cachedMasks := map[], [];
      cachedDesaturate, cachedHeight := false, 0;
    }

    /** `OnEnable`: forget the preview and the whole cache. */
    method OnEnable()
      modifies this
      ensures originalTexture == null && preview == null
      ensures cachedDesaturate == false && cachedHeight == -1
      ensures cachedMasks == [] && generatedTextures == map[]
      ensures Valid() && Coherent()
    {
      originalTexture, preview := null, null;
      cachedDesaturate := false;
      cachedHeight := -1;
      cachedMasks := [];
      generatedTextures := map[];
    }

    /** `ForceRegenerate`: drop every generated texture and the snapshot. */
    method ForceRegenerate()
      modifies this
      ensures generatedTextures == map[] && cachedMasks == []
      ensures originalTexture == old(originalTexture) && preview == old(preview)
      ensures cachedDesaturate == old(cachedDesaturate) && cachedHeight == old(cachedHeight)
      ensures old(originalTexture != null ==> preview != null) ==> Valid()
      ensures Coherent()
    {
      generatedTextures := map[];
      cachedMasks := [];
    }

    /**
     * `IsSettingsChanged`: a changed modifier clears the cache and reports a
     * change; otherwise nothing changes, and a change is reported unless the
     * masks are there, as many as in the snapshot, each equal to a cached one.
     */
    method IsSettingsChanged(asset: AssetSettings) returns (changed: bool)
      requires Valid()
      requires (cachedDesaturate == asset.desaturate && cachedHeight == asset.previewHeight &&
                asset.masks.Some? && |cachedMasks| == |asset.masks.value|) ==> ScanSafe(cachedMasks, asset.masks.value)
      modifies this
      ensures Valid()
      ensures originalTexture == old(originalTexture) && preview == old(preview)
      ensures cachedDesaturate == old(cachedDesaturate) && cachedHeight == old(cachedHeight)
      ensures old(cachedDesaturate != asset.desaturate || cachedHeight != asset.previewHeight) ==>
                changed && generatedTextures == map[] && cachedMasks == []
      ensures old(cachedDesaturate == asset.desaturate && cachedHeight == asset.previewHeight) ==>
                && generatedTextures == old(generatedTextures) && cachedMasks == old(cachedMasks)
                && (changed <==> !SnapshotMatches(cachedMasks, asset.masks))
      ensures old(Coherent()) ==> Coherent()
    {
      if cachedDesaturate != asset.desaturate || cachedHeight != asset.previewHeight {
        ForceRegenerate();
        return true;
      }
      if asset.masks.None? || |cachedMasks| != |asset.masks.value| {
        return true;
      }
      var masks := asset.masks.value;
      var i := 0;
      while i < |masks|
        invariant 0 <= i <= |masks|
        invariant ScanSafe(cachedMasks, masks[i..])
        invariant forall k :: 0 <= k < i ==> masks[k] in cachedMasks
      {
        assert masks[i..][0] == masks[i] && masks[i..][1..] == masks[i + 1..];
        if !ExistsEqual(cachedMasks, masks[i]) {
          return true;
        }
        i := i + 1;
      }
      return false;
    }

    /**
     * The name list of `GenerateNeededMasks`: the dictionary's keys (in some
     * order), then each mask's name unless already listed, then null and
     * empty names removed. Every name appears once.
     */
    method CollectNames(masks: seq<MaskInfo>) returns (active: seq<string>)
      requires Valid()
      ensures Distinct(active)
      ensures forall n :: n in active <==> n in generatedTextures || n in ActiveNames(masks)
    {
      var names: seq<Option<string>> := [];
      var pending := generatedTextures.Keys;
      while pending != {}
        invariant pending <= generatedTextures.Keys
        invariant Distinct(names)
        invariant forall k :: 0 <= k < |names| ==> names[k].Some? && names[k].value !in pending
        invariant forall n :: Some(n) in names <==> n in generatedTextures && n !in pending
        decreases |pending|
      {
        var key :| key in pending;
        names := names + [Some(key)];
        pending := pending - {key};
      }
      assert forall o :: o in names <==> o.Some? && o.value in generatedTextures;
      var allNames := NameList(masks);
      var i := 0;
      while i < |allNames|
        invariant 0 <= i <= |allNames|
        invariant Distinct(names)
        invariant forall o :: o in names <==> (o.Some? && o.value in generatedTextures) || o in allNames[..i]
      {
        assert allNames[..i + 1] == allNames[..i] + [allNames[i]];
        if allNames[i] !in names {
          names := names + [allNames[i]];
        }
        i := i + 1;
      }
      assert allNames[..i] == allNames;
      active := RemoveNullOrEmpty(names);
      forall n
        ensures n in active <==> n in generatedTextures || n in ActiveNames(masks)
      {
        ActiveNamesMembership(masks, n);
      }
    }

    /**
     * One iteration of the regeneration loop of `GenerateNeededMasks`: take
     * the name's buffer out of the dictionary, then put back either that same
     * buffer, when the first current definition equals the first cached one,
     * or the newly generated mask; a name with no current definition stays out.
     */
    method RegenerateName(masks: seq<MaskInfo>, desaturate: bool, name: string)
      requires BuffersFit() && preview != null && FirstDefinitionsHaveColors(masks) && name != ""
      requires forall i :: 0 <= i < |cachedMasks| ==> cachedMasks[i].pickedColors.Some?
      modifies this, if name in generatedTextures then {generatedTextures[name]} else {}
      ensures BuffersFit()
      ensures Settings() == old(Settings())
      ensures forall n :: n != name ==> (n in generatedTextures <==> n in old(generatedTextures))
      ensures name in generatedTextures <==> FindByName(masks, name).Some?
      ensures forall n :: n in generatedTextures && n in old(generatedTextures) ==> generatedTextures[n] == old(generatedTextures[n])
      ensures name in generatedTextures && name in old(generatedTextures) && Unedited(masks, cachedMasks, name) ==>
                unchanged(generatedTextures[name])
      ensures name in generatedTextures && !(name in old(generatedTextures) && Unedited(masks, cachedMasks, name)) ==>
                IsMask(generatedTextures[name], preview, RulesOf(masks, name), desaturate, toHsv)
      ensures name in generatedTextures && name !in old(generatedTextures) ==> fresh(generatedTextures[name])
    {
      var cachedMask := FindByName(cachedMasks, name);
      var originalMask := FindByName(masks, name);
      ActiveNamesMembership(masks, name);
      var reuseTexture: array2?<Color> := null;
      if name in generatedTextures {
        reuseTexture := generatedTextures[name];
        generatedTextures := generatedTextures - {name};
      }
      if originalMask.Some? {
        if reuseTexture == null || !(cachedMask.Some? && originalMask.value.Equals(cachedMask.value)) {
          var t := GenerateMask(preview, reuseTexture, originalMask.value, desaturate, toHsv);
          assert name !in generatedTextures;  // Dictionary.Add never meets a duplicate key
          generatedTextures := generatedTextures[name := t];
        } else {
          assert name !in generatedTextures;
          generatedTextures := generatedTextures[name := reuseTexture];
        }
      }
    }

    /**
     * `GenerateNeededMasks`: afterwards there is one texture per distinct
     * active name of the current masks. A name whose buffer existed and whose
     * first definition is unedited keeps that buffer untouched; every other
     * name gets the mask of its first definition, in its old buffer if it had
     * one, in a fresh one otherwise. Names of deleted masks are dropped.
     */
    method GenerateNeededMasks(asset: AssetSettings)
      requires Valid() && preview != null && asset.masks.Some?
      requires FirstDefinitionsHaveColors(asset.masks.value)
      modifies this, Buffers()
      ensures Valid()
      ensures Settings() == old(Settings())
      ensures generatedTextures.Keys == ActiveNames(asset.masks.value)
      ensures forall n :: n in generatedTextures && n in old(generatedTextures) ==> generatedTextures[n] == old(generatedTextures[n])
      ensures forall n :: n in generatedTextures && n in old(generatedTextures) && Unedited(asset.masks.value, cachedMasks, n) ==>
                unchanged(generatedTextures[n])
      ensures forall n :: n in generatedTextures && !(n in old(generatedTextures) && Unedited(asset.masks.value, cachedMasks, n)) ==>
                IsMask(generatedTextures[n], preview, RulesOf(asset.masks.value, n), asset.desaturate, toHsv)
      ensures forall n :: n in generatedTextures && n !in old(generatedTextures) ==> fresh(generatedTextures[n])
      ensures forall b :: b in Buffers() ==> b in old(Buffers()) || fresh(b)
      ensures old(Coherent()) && (old(generatedTextures) != map[] ==> cachedDesaturate == asset.desaturate) ==>
                ShowsMasksOf(asset.masks.value, asset.desaturate)
    {
      var masks := asset.masks.value;
      var active := CollectNames(masks);
      assert forall k :: 0 <= k < |active| ==> active[k] != "" by {
        forall k | 0 <= k < |active| ensures active[k] != "" {
          assert active[k] in active;
        }
      }
      RegenerateAll(masks, asset.desaturate, active);
      forall n ensures n in generatedTextures <==> n in ActiveNames(masks) {
        ActiveNamesMembership(masks, n);
      }
      forall b | b in Buffers() ensures b in old(Buffers()) || fresh(b) {
        var n :| n in generatedTextures && generatedTextures[n] == b;
      }
      if old(Coherent()) && (old(generatedTextures) != map[] ==> cachedDesaturate == asset.desaturate) {
        forall n | n in generatedTextures
          ensures IsMask(generatedTextures[n], preview, RulesOf(masks, n), asset.desaturate, toHsv)
        {
          if n in old(generatedTextures) && Unedited(masks, cachedMasks, n) {
            var t := generatedTextures[n];
            assert old(IsMask(t, preview, RulesOf(cachedMasks, n), cachedDesaturate, toHsv));
          }
        }
      }
    }

    /**
     * The `for` loop over the name list of `GenerateNeededMasks`, one
     * `RegenerateName` step per name, in list order. Names off the list keep
     * their entry and buffer.
     */
    method RegenerateAll(masks: seq<MaskInfo>, desaturate: bool, names: seq<string>)
      requires BuffersFit() && preview != null && FirstDefinitionsHaveColors(masks)
      requires forall i :: 0 <= i < |cachedMasks| ==> cachedMasks[i].pickedColors.Some?
      requires ProperNames(names)
      modifies this, Buffers()
      decreases |names|
      ensures BuffersFit()
      ensures Settings() == old(Settings())
      ensures forall n :: n in generatedTextures <==>
                if n in names then FindByName(masks, n).Some? else n in old(generatedTextures)
      ensures forall n :: n in generatedTextures && n in old(generatedTextures) ==> generatedTextures[n] == old(generatedTextures[n])
      ensures forall n :: n in generatedTextures && n in old(generatedTextures) && (n !in names || Unedited(masks, cachedMasks, n)) ==>
                unchanged(generatedTextures[n])
      ensures forall n :: n in generatedTextures && !(n in old(generatedTextures) && (n !in names || Unedited(masks, cachedMasks, n))) ==>
                IsMask(generatedTextures[n], preview, RulesOf(masks, n), desaturate, toHsv)
      ensures forall n :: n in generatedTextures && n !in old(generatedTextures) ==> fresh(generatedTextures[n])
    {
      if names != [] {
        ProperTail(names);
        RegenerateName(masks, desaturate, names[0]);
        RegenerateAll(masks, desaturate, names[1..]);
      }
    }

    /**
     * `MarkSettingsChanged`: the snapshot becomes a deep copy of the current
     * masks, in order, and the modifiers are recorded.
     */
    method MarkSettingsChanged(asset: AssetSettings)
      requires Valid() && asset.masks.Some?
      modifies this
      ensures Valid()
      ensures |cachedMasks| == |asset.masks.value| &&
              forall i :: 0 <= i < |cachedMasks| ==> cachedMasks[i] == asset.masks.value[i].Copy()
      ensures cachedDesaturate == asset.desaturate && cachedHeight == asset.previewHeight
      ensures generatedTextures == old(generatedTextures)
      ensures originalTexture == old(originalTexture) && preview == old(preview)
    {
      var masks := asset.masks.value;
      cachedMasks := [];
      var i := 0;
      while i < |masks|
        invariant 0 <= i <= |masks|
        invariant |cachedMasks| == i && forall k :: 0 <= k < i ==> cachedMasks[k] == masks[k].Copy()
        invariant generatedTextures == old(generatedTextures)
        invariant originalTexture == old(originalTexture) && preview == old(preview)
      {
        cachedMasks := cachedMasks + [masks[i].Copy()];
        i := i + 1;
      }
      cachedDesaturate := asset.desaturate;
      cachedHeight := asset.previewHeight;
    }

    /** Whether `OnInspectorGUI` with this texture regenerates: the same test `IsSettingsChanged` makes, after the preview reset. */
    ghost predicate Regenerates(asset: AssetSettings, texture: array2<Color>)
      reads this
    {
      var reset := originalTexture != texture || cachedHeight != asset.previewHeight;
      !(cachedDesaturate == asset.desaturate && cachedHeight == asset.previewHeight &&
        SnapshotMatches(if reset then [] else cachedMasks, asset.masks))
    }

    /**
     * The body of `if (IsSettingsChanged())`: `GenerateNeededMasks`, then
     * `MarkSettingsChanged`. Any buffer still cached was made with the
     * current `desaturate` (a changed modifier empties the cache first).
     * Afterwards the snapshot is a copy of the masks and the buffers show them.
     */
    method Regenerate(asset: AssetSettings)
      requires Valid() && Coherent() && preview != null && asset.masks.Some?
      requires FirstDefinitionsHaveColors(asset.masks.value)
      requires generatedTextures != map[] ==> cachedDesaturate == asset.desaturate
      modifies this, Buffers()
      ensures Valid() && Coherent()
      ensures originalTexture == old(originalTexture) && preview == old(preview)
      ensures cachedDesaturate == asset.desaturate && cachedHeight == asset.previewHeight
      ensures |cachedMasks| == |asset.masks.value| &&
              forall i :: 0 <= i < |cachedMasks| ==> cachedMasks[i] == asset.masks.value[i].Copy()
      ensures ShowsMasksOf(asset.masks.value, asset.desaturate)
      ensures forall b :: b in Buffers() ==> b in old(Buffers()) || fresh(b)
    {
      var masks := asset.masks.value;
      GenerateNeededMasks(asset);
      MarkSettingsChanged(asset);
      ActiveNamesOfCopies(masks, cachedMasks);
      forall n | n in generatedTextures
        ensures RulesOf(cachedMasks, n) == RulesOf(masks, n)
      {
        RulesOfCopies(masks, cachedMasks, n);
      }
    }

    /** What `IsSettingsChanged` reports in the current state. */
    ghost predicate SettingsChanged(asset: AssetSettings)
      reads this
    {
      !(cachedDesaturate == asset.desaturate && cachedHeight == asset.previewHeight &&
        SnapshotMatches(cachedMasks, asset.masks))
    }

    /**
     * `if (IsSettingsChanged()) { GenerateNeededMasks(); MarkSettingsChanged(); }`.
     * Without a change nothing happens; after a change the snapshot is a copy
     * of the masks. The cache stays coherent, and after a regeneration, or
     * whenever the current definitions are unique, the buffers show the
     * current masks.
     */
    method Refresh(asset: AssetSettings)
      requires Valid() && Coherent() && preview != null && asset.masks.Some?
      requires (cachedDesaturate == asset.desaturate && cachedHeight == asset.previewHeight &&
                |cachedMasks| == |asset.masks.value|) ==> ScanSafe(cachedMasks, asset.masks.value)
      requires SettingsChanged(asset) ==> FirstDefinitionsHaveColors(asset.masks.value)
      modifies this, Buffers()
      ensures Valid() && Coherent()
      ensures originalTexture == old(originalTexture) && preview == old(preview)
      ensures cachedDesaturate == asset.desaturate && cachedHeight == asset.previewHeight
      ensures old(!SettingsChanged(asset)) ==>
                generatedTextures == old(generatedTextures) && cachedMasks == old(cachedMasks) && unchanged(old(Buffers()))
      ensures old(SettingsChanged(asset)) ==>
                |cachedMasks| == |asset.masks.value| &&
                forall i :: 0 <= i < |cachedMasks| ==> cachedMasks[i] == asset.masks.value[i].Copy()
      ensures old(SettingsChanged(asset)) || UniqueDefinitions(asset.masks.value) ==>
                ShowsMasksOf(asset.masks.value, asset.desaturate)
      ensures forall b :: b in Buffers() ==> b in old(Buffers()) || fresh(b)
    {
      var changed := IsSettingsChanged(asset);
      if changed {
        Regenerate(asset);
      } else if UniqueDefinitions(asset.masks.value) {
        UnchangedCacheShowsMasks(asset);
      }
    }

    /**
     * With unique definitions, a cache that `IsSettingsChanged` accepts
     * already shows the current masks: the regeneration it skips is not needed.
     */
    lemma UnchangedCacheShowsMasks(asset: AssetSettings)
      requires Coherent() && asset.masks.Some? && UniqueDefinitions(asset.masks.value)
      requires cachedDesaturate == asset.desaturate && SnapshotMatches(cachedMasks, asset.masks)
      ensures ShowsMasksOf(asset.masks.value, asset.desaturate)
    {
      UnchangedSnapshotAgrees(cachedMasks, asset.masks.value);
      assert forall n :: n in generatedTextures ==> RulesOf(cachedMasks, n) == RulesOf(asset.masks.value, n);
    }

    /**
     * The decision logic of `OnInspectorGUI` (drawing left out). `clone`
     * stands for `CommonUtils.Clone(texture, previewHeight)`. A new texture or
     * height replaces the preview and clears the cache; then the cache is
     * refreshed as `Refresh` states.
     */
    method OnInspectorGUI(asset: AssetSettings, texture: array2?<Color>, clone: array2<Color>)
      requires Valid() && Coherent()
      requires texture != null ==> asset.masks.Some?
      requires (texture != null && originalTexture == texture &&
                cachedDesaturate == asset.desaturate && cachedHeight == asset.previewHeight &&
                |cachedMasks| == |asset.masks.value|) ==> ScanSafe(cachedMasks, asset.masks.value)
      requires texture != null && Regenerates(asset, texture) ==> FirstDefinitionsHaveColors(asset.masks.value)
      modifies this, Buffers()
      ensures Valid() && Coherent()
      ensures texture == null ==> unchanged(this) && unchanged(old(Buffers()))
      ensures texture != null ==>
                && originalTexture == texture
                && cachedDesaturate == asset.desaturate && cachedHeight == asset.previewHeight
                && preview == if old(originalTexture != texture || cachedHeight != asset.previewHeight) then clone else old(preview)
      ensures texture != null && old(originalTexture == texture && !Regenerates(asset, texture)) ==>
                generatedTextures == old(generatedTextures) && cachedMasks == old(cachedMasks) && unchanged(old(Buffers()))
      ensures texture != null && old(originalTexture != texture || cachedHeight != asset.previewHeight || Regenerates(asset, texture)) ==>
                |cachedMasks| == |asset.masks.value| &&
                forall i :: 0 <= i < |cachedMasks| ==> cachedMasks[i] == asset.masks.value[i].Copy()
      ensures texture != null && (old(Regenerates(asset, texture)) || UniqueDefinitions(asset.masks.value)) ==>
                ShowsMasksOf(asset.masks.value, asset.desaturate)
      ensures forall b :: b in Buffers() ==> b in old(Buffers()) || fresh(b)
    {
      if texture == null {
        return;
      }
      if originalTexture != texture || cachedHeight != asset.previewHeight {
        originalTexture, preview := texture, clone;
        ForceRegenerate();
      }
      Refresh(asset);
    }
  }
}
