# MaskExtractor in Dafny

A model of the core of MaskExtractor, a Unity editor tool. The tool builds alpha masks from a texture. It classifies every pixel against picked reference colours by a weighted squared distance in HSV space, and keeps an inspector-side cache so that only edited masks are regenerated. Everything modelled lives in `Assets/MaskExtractor/Scripts/ExtractMaskAsset.cs`. The model has three modules plus `Wrappers`:

- `MaskTypes` (`mask_info.dfy`) covers the value types `PickedColor` and `MaskInfo`: their structural `Equals` and their copy constructors. C# `null` is `Option.None`, and Unity's float channels are reals.
- `ExtractMaskAsset` (`generate_mask.dfy`) covers `GenerateMask`, written imperatively over an `array2<Color>` indexed `[x, y]`.
  - It has the same clearing loops and the same per-rule, per-row, per-pixel loops as the C#.
  - Its per-pixel result is proved equal to `MaskPixel`: the source pixel (or its grey `(v, v, v, a)`) when any rule matches, and transparent black otherwise.
  - The lemmas about `MaskPixel` and about the sequential passes (`Layered`) state the classifier's properties: per-pixel outcomes, last match wins, rule order irrelevant, reference colour always matches, zero weights match everything, and hue does not wrap.
- `MaskEditor` (`mask_editor.dfy`) covers `CreateMaskAssetEditor` as a class. It has the same state as the C#:
  - the preview pair;
  - the `name → texture` dictionary, as a `map` to `array2` buffers;
  - the deep-copied snapshot of mask definitions;
  - the cached `desaturate` and `previewHeight`.

  Its methods are `OnEnable`, `ForceRegenerate`, `IsSettingsChanged`, `GenerateNeededMasks` (name collection plus per-name regeneration), `MarkSettingsChanged`, and the decision logic of `OnInspectorGUI`. The invariant `Coherent` says every cached buffer is the mask of the preview under its name's first snapshot definition. After a regeneration, `ShowsMasksOf` says the buffers are the masks of the current definitions.

Unity's `Color.RGBToHSV` is a parameter `toHsv: Color -> Hsv` throughout. `CommonUtils.Clone` is the parameter `clone` of `OnInspectorGUI`.

Behaviour of the C# that the model keeps:

- `GenerateMask` returns null for a null texture or a null or empty mask name; it does not fail.
- `GenerateNeededMasks` drops the names whose definition was deleted.
- `IsSettingsChanged` compares list counts and checks that every current definition equals some cached one; it does not compare name by name.
- No rule is rejected for an out-of-range threshold or weight.

## Model

| member | source | states |
|---|---|---|
| MaskTypes.PickedColor.Equals | Assets/MaskExtractor/Scripts/ExtractMaskAsset.cs:50-65 | true exactly when all five fields (colour, threshold, three weights) are equal |
| MaskTypes.PickedColor.Copy | Assets/MaskExtractor/Scripts/ExtractMaskAsset.cs:41-48 | the copy compares equal to the original |
| MaskTypes.MaskInfo.Equals | Assets/MaskExtractor/Scripts/ExtractMaskAsset.cs:100-135 | with the early returns in order, true exactly when the two definitions are identical; the requires is exactly what avoids the null dereferences at lines 114 and 124 |
| MaskTypes.MaskInfo.Copy | Assets/MaskExtractor/Scripts/ExtractMaskAsset.cs:85-98 | same name, a rule array that is never null (empty for a null one), element-wise equal rules in order; identical to the original when its array was not null |
| MaskTypes.ColorsEqualFrom | Assets/MaskExtractor/Scripts/ExtractMaskAsset.cs:127-133 | the element-wise loop from index `i` is true exactly when the two suffixes are equal |
| MaskTypes.CopyColors | Assets/MaskExtractor/Scripts/ExtractMaskAsset.cs:89-95 | copying rule by rule gives the same sequence of rules |
| MaskTypes.EqualsIffFieldwise | Assets/MaskExtractor/Scripts/ExtractMaskAsset.cs:111-133 | `Equals` holds exactly when names agree, both arrays exist, lengths agree and rules are pairwise `PickedColor.Equals` |
| MaskTypes.CopyEqualsOriginal | Assets/MaskExtractor/Scripts/ExtractMaskAsset.cs:85-135 | for a non-null name and array, the copy and the original can be compared both ways and compare equal both ways |
| MaskTypes.CopyIdenticalIff | Assets/MaskExtractor/Scripts/ExtractMaskAsset.cs:85-98 | the copy is identical to the original exactly when the original's rule array is not null |
| ExtractMaskAsset.Clear | Assets/MaskExtractor/Scripts/ExtractMaskAsset.cs:179-186 | after the clearing loops every pixel is `(0, 0, 0, 0)` |
| ExtractMaskAsset.ApplyRuleToRow | Assets/MaskExtractor/Scripts/ExtractMaskAsset.cs:194-216 | the inner loop paints row `y`: each pixel is overwritten by the matched colour exactly when its distance is at most the squared threshold; other rows are untouched |
| ExtractMaskAsset.ApplyRule | Assets/MaskExtractor/Scripts/ExtractMaskAsset.cs:190-217 | one rule's full pass: every pixel becomes `Paint` of its previous value |
| ExtractMaskAsset.GenerateMask | Assets/MaskExtractor/Scripts/ExtractMaskAsset.cs:163-223 | null exactly for a null texture or a null or empty name, with the reuse buffer then untouched; otherwise the reuse buffer (or a fresh texture), with every pixel equal to `MaskPixel` of the source pixel |
| ExtractMaskAsset.LayeredIsMaskPixel | Assets/MaskExtractor/Scripts/ExtractMaskAsset.cs:188-218 | the sequential passes give, per pixel, the matched colour if any rule matches and transparent black otherwise |
| ExtractMaskAsset.PixelOutcome | Assets/MaskExtractor/Scripts/ExtractMaskAsset.cs:196-214 | no match gives `(0, 0, 0, 0)`; a match gives the source pixel, or with `desaturate` the grey `(v, v, v)` with the source alpha |
| ExtractMaskAsset.LastMatchWins | Assets/MaskExtractor/Scripts/ExtractMaskAsset.cs:188-218 | a last rule that matches decides the pixel, whatever the earlier rules did |
| ExtractMaskAsset.RuleOrderIrrelevant | Assets/MaskExtractor/Scripts/ExtractMaskAsset.cs:188-218 | two rule lists with the same members (reordered or duplicated) give the same pixel |
| ExtractMaskAsset.ReferenceColorMatches | Assets/MaskExtractor/Scripts/ExtractMaskAsset.cs:205-207 | a pixel with the reference colour's HSV matches for every threshold |
| ExtractMaskAsset.ZeroWeightsMatchAll | Assets/MaskExtractor/Scripts/ExtractMaskAsset.cs:205-207 | with all three weights zero every pixel matches |
| ExtractMaskAsset.HueDoesNotWrap | Assets/MaskExtractor/Scripts/ExtractMaskAsset.cs:205-207 | hues 0.01 and 0.99 are 0.98 apart, so a hue-only rule with threshold below 0.98 rejects them although they are neighbours on the colour wheel |
| ExtractMaskAsset.RedBlueScenario | Assets/MaskExtractor/Scripts/ExtractMaskAsset.cs:188-218 | a red pixel is kept (white when desaturating) and a blue one becomes transparent under one tight red rule |
| MaskEditor.FindByName | Assets/MaskExtractor/Scripts/ExtractMaskAsset.cs:359-360 | `List.Find`: none exactly when no entry has the name; otherwise an entry with the name that no earlier entry has |
| MaskEditor.RemoveNullOrEmpty | Assets/MaskExtractor/Scripts/ExtractMaskAsset.cs:353 | `RemoveAll(IsNullOrEmpty)`: exactly the non-empty non-null names remain, without repeats if there were none |
| MaskEditor.ExistsEqual | Assets/MaskExtractor/Scripts/ExtractMaskAsset.cs:331 | `Exists(m => m.Equals(mask))` is true exactly when the definition is in the list |
| MaskEditor.ActiveNamesMembership | Assets/MaskExtractor/Scripts/ExtractMaskAsset.cs:342-353 | a name is active exactly when it is non-empty and `Find` finds it, and exactly when it is non-empty and in the `ConvertAll` list |
| MaskEditor.FindByNameInCopies | Assets/MaskExtractor/Scripts/ExtractMaskAsset.cs:383-390 | `Find` in the snapshot finds exactly when `Find` in the masks does, and finds the copy of the same entry |
| MaskEditor.RulesOfCopies | Assets/MaskExtractor/Scripts/ExtractMaskAsset.cs:383-390 | a name's first definition has the same rules in the snapshot as in the masks |
| MaskEditor.ActiveNamesOfCopies | Assets/MaskExtractor/Scripts/ExtractMaskAsset.cs:383-390 | the snapshot has the same active names as the masks |
| MaskEditor.SnapshotHoldsExactlyMasks | Assets/MaskExtractor/Scripts/ExtractMaskAsset.cs:323-337 | with distinct entries, a snapshot that passes the count-and-exists test holds exactly the current entries |
| MaskEditor.UnchangedSnapshotAgrees | Assets/MaskExtractor/Scripts/ExtractMaskAsset.cs:323-337 | with unique definitions, such a snapshot has the same active names and the same first definition per name |
| MaskEditor.DuplicateEntryHidesRemoval | Assets/MaskExtractor/Scripts/ExtractMaskAsset.cs:323-337 | without unique definitions the test can pass although a name disappeared (snapshot `[x, y]`, masks `[x, x]`) |
| MaskEditor.ReorderedNameHidesEdit | Assets/MaskExtractor/Scripts/ExtractMaskAsset.cs:323-337 | two distinct entries named `a` with different rules, swapped, pass the test although the first definition of `a`, and so its mask, changed |
| MaskEditor.CreateMaskAssetEditor.constructor | Assets/MaskExtractor/Scripts/ExtractMaskAsset.cs:234-242 | the field initialisers: empty dictionary and snapshot, default modifiers; the cache is valid and coherent |
| MaskEditor.CreateMaskAssetEditor.OnEnable | Assets/MaskExtractor/Scripts/ExtractMaskAsset.cs:248-254 | preview forgotten, `desaturate` false, height -1, snapshot and dictionary empty |
| MaskEditor.CreateMaskAssetEditor.ForceRegenerate | Assets/MaskExtractor/Scripts/ExtractMaskAsset.cs:398-402 | dictionary and snapshot emptied, everything else kept, the cache coherent |
| MaskEditor.CreateMaskAssetEditor.IsSettingsChanged | Assets/MaskExtractor/Scripts/ExtractMaskAsset.cs:315-338 | a changed modifier empties the cache and reports a change; otherwise nothing changes and a change is reported exactly when the counts differ, the masks are null, or some current definition has no equal in the snapshot |
| MaskEditor.CreateMaskAssetEditor.CollectNames | Assets/MaskExtractor/Scripts/ExtractMaskAsset.cs:342-353 | the name list has no repeats and holds exactly the dictionary's keys and the active names of the masks |
| MaskEditor.CreateMaskAssetEditor.RegenerateName | Assets/MaskExtractor/Scripts/ExtractMaskAsset.cs:358-379 | one name: kept exactly when it has a current definition. An existing buffer with an unedited first definition is kept untouched; otherwise the buffer holds the mask of the first current definition, in the old buffer if there was one, else in a fresh one; other names keep their entries |
| MaskEditor.CreateMaskAssetEditor.RegenerateAll | Assets/MaskExtractor/Scripts/ExtractMaskAsset.cs:356-380 | the loop over the name list: listed names end up present exactly when they have a current definition, unlisted names keep their entry and buffer, and each buffer is kept, regenerated or fresh as for one name |
| MaskEditor.CreateMaskAssetEditor.GenerateNeededMasks | Assets/MaskExtractor/Scripts/ExtractMaskAsset.cs:340-381 | the keys become exactly the active names of the masks (deleted names dropped, no duplicate `Add`); unedited names keep their buffer untouched; every other name holds the mask of its first current definition; every buffer is an old one or freshly allocated; from a coherent cache made with the same `desaturate`, the buffers show the current masks |
| MaskEditor.CreateMaskAssetEditor.MarkSettingsChanged | Assets/MaskExtractor/Scripts/ExtractMaskAsset.cs:383-396 | the snapshot is the element-wise copy of the masks in order, and both modifiers are recorded; the dictionary is untouched |
| MaskEditor.CreateMaskAssetEditor.Regenerate | Assets/MaskExtractor/Scripts/ExtractMaskAsset.cs:277-281 | `GenerateNeededMasks` then `MarkSettingsChanged`: the snapshot copies the masks and the buffers show the masks of the current definitions under the current `desaturate`; every buffer is an old one or freshly allocated |
| MaskEditor.CreateMaskAssetEditor.Refresh | Assets/MaskExtractor/Scripts/ExtractMaskAsset.cs:277-281 | without a reported change nothing changes; after one the snapshot copies the masks; the cache stays coherent, and the buffers show the current masks after a regeneration or whenever definitions are unique; every buffer is an old one or freshly allocated |
| MaskEditor.CreateMaskAssetEditor.UnchangedCacheShowsMasks | Assets/MaskExtractor/Scripts/ExtractMaskAsset.cs:315-338 | with unique definitions, a coherent cache that the change test accepts already shows the current masks |
| MaskEditor.CreateMaskAssetEditor.OnInspectorGUI | Assets/MaskExtractor/Scripts/ExtractMaskAsset.cs:269-281 | a null texture changes nothing; a new texture or height replaces the preview and empties the cache; then the cache is refreshed as `Refresh` states, so after a reset or a regeneration the snapshot is the in-order copy of the masks; every buffer is an old one or freshly allocated, so the method can be called again on the next repaint |

## Left out

- The inspector drawing in `OnInspectorGUI` (lines 283-311), the `GUIStyle` set-up in `OnEnable` (lines 256-258) and `base.OnInspectorGUI()`: GUI only.
- `SaveTextures` (lines 404-438): a folder dialog, PNG encoding and file writes, all I/O.
- `t.Apply()` (line 220): a GPU upload with no effect on the pixels.
- `CommonUtils.Clone`: a GPU resize. It is the `clone` argument of `OnInspectorGUI`. `CommonUtils.cs` and `EditorUtils.cs` are not part of this model.
- `Color.RGBToHSV`: Unity library code. It is the parameter `toHsv` and nothing is assumed about it.
- IEEE float rounding in `Mathf.Pow` and in the comparison of lines 205-207: channels, weights and thresholds are reals.
- `GetHashCode` (lines 68-74, 137-143): no logic uses it. `MaskInfo`'s hash is not consistent with `Equals`.
- The `obj == null` and run-time type tests in both `Equals` methods: arguments are typed values here.
- Null `MaskInfo` entries in the list and null `PickedColor` elements in a rule array: neither is modelled.
  - A null entry would be dereferenced by `ConvertAll` (line 346), by `Find` (lines 359-360) and by the copy constructor (line 87).
  - A null element would be dereferenced by the copy constructor (line 43), by `GenerateMask` (line 190), and by `MaskInfo.Equals` at line 129 when the current mask is the receiver (line 371).
  - `Exists` at line 331 calls `Equals` on a cached copy, which is never null; a null argument makes `Equals` return false at line 103.
- Null-reference exceptions are not modelled. Each is a precondition instead:
  - `ExtractMaskAsset.GenerateMask`'s `mask.pickedColors.Some?` excludes the exception of the `foreach` at line 188.
  - `MaskEditor.FirstDefinitionsHaveColors`, required by `GenerateNeededMasks`, `Regenerate`, `Refresh` and `OnInspectorGUI`, excludes two exceptions: the one at line 188 reached from line 373, and the one at line 124 reached from line 371.
  - `OnInspectorGUI`'s `texture != null ==> asset.masks.Some?` excludes the exception of `ConvertAll` at line 346.
  - `MaskEditor.ScanSafe` and `MaskEditor.SearchSafe`, required by `IsSettingsChanged`, `Refresh` and `OnInspectorGUI`, exclude the exceptions at lines 114 and 124 inside the `Exists` of line 331.
- The dictionary's enumeration order: `CollectNames` takes the keys in an arbitrary order and its contract does not depend on it. The order only affects GUI display.
- MaskTypes.MaskInfo.Copy: copies are values here, so the fresh identity of the copied `PickedColor` objects is not expressed. Only their equality is.
- ExtractMaskAsset.GenerateMask: requires the reuse buffer to have the source's size and to be a different texture from the source. The editor always passes such a buffer.
- MaskEditor.CreateMaskAssetEditor.RegenerateAll: the `for` loop of lines 356-380 is written as recursion over the list. Each step is `RegenerateName`, the loop body.
- MaskEditor.CreateMaskAssetEditor.Refresh: "the buffers show the current masks" is stated only after a regeneration or when definitions are unique.
  - The source's change test is counts plus "exists an equal cached entry".
  - That test can accept a cache missing an edit in two cases: when entries repeat (`DuplicateEntryHidesRemoval`), and when two active entries share a name and are reordered (`ReorderedNameHidesEdit`).
  - `Coherent` is kept in every case.
- MaskEditor.CreateMaskAssetEditor.OnInspectorGUI: the same limitation as `Refresh`, for the same reason.
