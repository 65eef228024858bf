# XitoSBML image core and table id bookkeeping, in Dafny

This project models two pieces of sequential logic from XitoSBML, the ImageJ
plugin that turns segmented microscopy images into Spatial SBML models.

**SpatialImage** holds an 8-bit ImageJ stack and the data derived from it:
- the flat `raw` buffer: slice `i` (numbered from 1, as ImageJ does) is copied
  to offset `(i-1)*width*height`, `width*height` bytes of it;
- the domain-type table: each sampled name gets a spatial dimension 1, 2 or 3,
  chosen by whether the name contains "membrane" and whether the stored
  `depth` exceeds 1 (after `setImage` this can differ from the new image's
  slice count, since `setImage` keeps `depth`);
- the coordinate unit, always "um", and the voxel spacing `delta`, divided by
  1000 only when the file reports "nm";
- the TIFF export choice of `saveAsImage`.

**SBaseTable** keeps SBML elements in `memberList` and mirrors them in a
libSBML `ListOf`. `removeFromList` and `containsDuplicateId` are modelled
over sequences of (reference, id) pairs.

Files and modules:
- `wrappers.dfy` (`Wrappers`): `Option` for Java null, `Result` for a call
  that may throw.
- `strings.dfy` (`Strings`): `String.contains`, with the scan proved equal to
  "occurs at some position".
- `flatten.dfy` (`Flatten`): the copy loop of `setRawImage`. `CopyPlanes` is
  the functional form and `SetRawImage` the array form. The partner is
  `Unflatten`, which cuts a buffer back into slices; round trips are proved
  both ways.
- `spatial_image.dfy` (`SpatialImage`): the object state (`State`), both constructors,
  `updateImage`, `setImage`, `createHashDomainTypes`, unit and spacing, and
  `saveAsImage`.
- `sbase_table.dfy` (`SBaseTable`): `removeFromList` and `containsDuplicateId`.
- `scenarios.dfy` (`Scenarios`): concrete cases worked out in full.

Behaviour at the edges, as the code has it:
- A slice longer than `width*height` is accepted; only its first
  `width*height` bytes are read. Only a shorter slice is an error, because
  `System.arraycopy` throws on it.
- `saveAsImage` skips only a null name. An empty name still saves to
  `<path>/.tiff`.
- `updateImage` changes `depth` but keeps the stored `width` and `height`.
  `setImage` keeps `depth` as well, so a new image with fewer slices makes
  the copy throw.

Java exceptions are `Result.Failure` values that name the exception and the
1-based slice where it is raised: `PlaneOutOfRange` is
`ImageStack.getPixels` past the last slice; `ShortPlane` is
`System.arraycopy` past the end of a slice.

## Model

| member | source | states |
|---|---|---|
| Strings.ContainsIffOccurs | src/main/java/jp/ac/keio/bio/fun/xitosbml/image/SpatialImage.java:274 | the left-to-right scan of `s.contains(t)` succeeds exactly when `t` occurs in `s` at some position |
| Flatten.CopyPlanes | src/main/java/jp/ac/keio/bio/fun/xitosbml/image/SpatialImage.java:118-126 | copying slices 1..depth succeeds iff every one exists and holds at least width*height pixels; the buffer then has exactly width*height*depth bytes; otherwise the error names the first failing slice, out of range exactly when the stack is shorter |
| Flatten.PixelPlaced | src/main/java/jp/ac/keio/bio/fun/xitosbml/image/SpatialImage.java:122-125 | pixel k of slice p lands at offset p*width*height + k of the buffer |
| Flatten.CopyPlanesPlaced | src/main/java/jp/ac/keio/bio/fun/xitosbml/image/SpatialImage.java:120-125 | the buffer has length width*height*depth and every copied pixel sits at its plane-major, row-major offset |
| Flatten.UnflattenCopyPlanes | src/main/java/jp/ac/keio/bio/fun/xitosbml/image/SpatialImage.java:122-125 | cutting the buffer into width*height-byte pieces gives back the first width*height pixels of each slice, in order |
| Flatten.CopyPlanesUnflatten | src/main/java/jp/ac/keio/bio/fun/xitosbml/image/SpatialImage.java:120-125 | a buffer of depth*width*height bytes, cut into slices and flattened again, is unchanged: nothing is lost or reordered |
| Flatten.UnflattenPixel | src/main/java/jp/ac/keio/bio/fun/xitosbml/image/SpatialImage.java:124 | pixel k of slice p read back from the buffer is the byte at p*width*height + k |
| Flatten.ArrayCopy | src/main/java/jp/ac/keio/bio/fun/xitosbml/image/SpatialImage.java:124 | `System.arraycopy` writes the source's first `length` elements at the offset and leaves the destination before and after that range as it was |
| Flatten.CopyPlanesStep | src/main/java/jp/ac/keio/bio/fun/xitosbml/image/SpatialImage.java:122-125 | one turn of the loop appends slice i's first width*height pixels to the buffer of slices 1..i-1 |
| Flatten.SetRawImage | src/main/java/jp/ac/keio/bio/fun/xitosbml/image/SpatialImage.java:118-126 | the array loop, allocating width*height*depth bytes and copying slice by slice, returns exactly what CopyPlanes describes, including which exception is raised and where |
| SpatialImage.AdjustUnit | src/main/java/jp/ac/keio/bio/fun/xitosbml/image/SpatialImage.java:358-364 | for "nm" each spacing component times 1000 gives back the input; for any other unit the spacing is unchanged |
| SpatialImage.InitialDelta | src/main/java/jp/ac/keio/bio/fun/xitosbml/image/SpatialImage.java:80-85 | the stored spacing is the file's pixelWidth/Height/Depth divided by 1000 when the file unit is "nm", and exactly the file's values for any other or a null unit |
| SpatialImage.Construct | src/main/java/jp/ac/keio/bio/fun/xitosbml/image/SpatialImage.java:74-86 | construction succeeds iff the stack's slices are all readable; the result has the image's width, height and slice count, the flattened stack as raw, unit "um" and the adjusted spacing; otherwise the first failing slice is reported |
| SpatialImage.Create | src/main/java/jp/ac/keio/bio/fun/xitosbml/image/SpatialImage.java:73-87 | the three-argument constructor succeeds iff every slice is readable, else reports the first failing slice; on success the image is consistent and keeps the given image, sampled values and domain types, with unit "um" whatever the file's unit and the spacing adjusted from the file |
| SpatialImage.CreateForEditing | src/main/java/jp/ac/keio/bio/fun/xitosbml/image/SpatialImage.java:99-112 | the editing constructor succeeds iff every slice is readable, else reports the first failing slice; on success the image is consistent, keeps the given image and sampled values, has no domain types, unit "um" and the spacing adjusted from the file |
| SpatialImage.UpdateImage | src/main/java/jp/ac/keio/bio/fun/xitosbml/image/SpatialImage.java:152-156 | depth becomes the new stack's size, the stack is replaced, raw is the new stack flattened with the stored width and height, and no other field changes; it fails exactly when a slice is too short |
| SpatialImage.SetImage | src/main/java/jp/ac/keio/bio/fun/xitosbml/image/SpatialImage.java:133-136 | the image is replaced and raw rebuilt with the stored width, height and depth; it fails exactly when the new image lacks one of slices 1..depth or one is too short; no other field changes |
| SpatialImage.UpdateImageKeepsConsistent | src/main/java/jp/ac/keio/bio/fun/xitosbml/image/SpatialImage.java:152-156 | replacing the stack of a consistent image with one of the same slice size leaves it consistent |
| SpatialImage.DomainType | src/main/java/jp/ac/keio/bio/fun/xitosbml/image/SpatialImage.java:274-281 | every dimension is 1, 2 or 3: the image's dimension (3 for depth > 1, else 2), one less for a membrane; so 3 only for a non-membrane in a stack and 1 only for a membrane in a single plane |
| SpatialImage.IsMembraneIffOccurs | src/main/java/jp/ac/keio/bio/fun/xitosbml/image/SpatialImage.java:274 | a name is a membrane exactly when "membrane" occurs in it somewhere, including as part of a longer word |
| SpatialImage.DomainTypes | src/main/java/jp/ac/keio/bio/fun/xitosbml/image/SpatialImage.java:272-282 | the table has exactly the sampled names as keys and every value in 1..3 |
| SpatialImage.CreateHashDomainTypes | src/main/java/jp/ac/keio/bio/fun/xitosbml/image/SpatialImage.java:271-283 | the domain types are replaced by a table over exactly the sampled names, each classified by the current depth; no other field changes |
| SpatialImage.DomainTypesIgnoreValues | src/main/java/jp/ac/keio/bio/fun/xitosbml/image/SpatialImage.java:273 | sampled-value tables with the same names give the same domain types, whatever the pixel values |
| SpatialImage.SaveAsImage | src/main/java/jp/ac/keio/bio/fun/xitosbml/image/SpatialImage.java:327-334 | nothing is saved iff the name is null; otherwise the file is path, "/", name, ".tiff" (a null path prints as "null") and the name can be read back from it; it is a stack save iff depth > 1 |
| Scenarios.FlattenTwoSlices | src/main/java/jp/ac/keio/bio/fun/xitosbml/image/SpatialImage.java:118-126 | two 2x2 slices [1,1,1,1] and [2,2,2,2] flatten to [1,1,1,1,2,2,2,2] |
| Scenarios.ClassifyNames | src/main/java/jp/ac/keio/bio/fun/xitosbml/image/SpatialImage.java:274-281 | "cyto" is 2 and "cell_membrane" 1 on a single plane; on five slices they are 3 and 2 |
| Scenarios.ClassifyTable | src/main/java/jp/ac/keio/bio/fun/xitosbml/image/SpatialImage.java:271-283 | {"nucleus", "membrane_outer"} on three slices classify as 3 and 2 |
| Scenarios.SpacingCases | src/main/java/jp/ac/keio/bio/fun/xitosbml/image/SpatialImage.java:80-85 | 1000 nm spacing becomes 1; "um" and null units leave (2, 2, 5) unchanged |
| SBaseTable.RemoveAt | src/sbmlplugin/pane/SBaseTable.java:67 | `remove(i)` drops element i, keeps earlier ones in place and shifts later ones down by one |
| SBaseTable.RemoveMatchingIds | src/sbmlplugin/pane/SBaseTable.java:64-66 | the scan of `list` never grows it and keeps only entries it was given |
| SBaseTable.RemoveMatchingIdsRemovesHalf | src/sbmlplugin/pane/SBaseTable.java:64-66 | the scan removes at least half of the entries with the id: at most half of them survive |
| SBaseTable.LoopStep | src/sbmlplugin/pane/SBaseTable.java:64-66 | one turn of the loop at index i, with or without a removal, keeps what is left to compute |
| SBaseTable.RemoveMatchingIdsLoop | src/sbmlplugin/pane/SBaseTable.java:64-66 | the index loop over a list that shrinks under it, incrementing i even after a removal, leaves what RemoveMatchingIds describes |
| SBaseTable.RemoveFromList | src/sbmlplugin/pane/SBaseTable.java:61-68 | index -1 changes nothing; an index outside the member list throws and nothing else does; otherwise exactly that member is removed, the others keep their order, and in `list` only entries with its id are removed |
| SBaseTable.RemoveMatchingIdsKeepsOthers | src/sbmlplugin/pane/SBaseTable.java:64-66 | every entry with another id survives the scan, in its original order |
| SBaseTable.RemoveMatchingIdsWithoutAdjacentPair | src/sbmlplugin/pane/SBaseTable.java:64-66 | when no two neighbouring entries share the id, the scan removes every entry with it |
| SBaseTable.RemoveFromListSingleMatch | src/sbmlplugin/pane/SBaseTable.java:61-68 | when exactly one entry of `list` has the removed member's id, that entry alone is removed and the rest keep their order |
| SBaseTable.RemoveMatchingIdsSkipsNeighbour | src/sbmlplugin/pane/SBaseTable.java:64-66 | for any list `pre + [a, b] + post` where `pre` has no entry with the id and `a`, `b` both have it, the scan removes `a`, keeps `b`, and goes on over `post` as over a fresh list |
| SBaseTable.RemoveAllWithId | src/sbmlplugin/pane/SBaseTable.java:64-66 | the intended removal leaves no entry with the id and keeps every other entry in order |
| SBaseTable.RemoveFromListUniqueIds | src/sbmlplugin/pane/SBaseTable.java:61-68 | when the ids in `list` are unique, removal takes every entry with the member's id |
| SBaseTable.RemoveFromListKeepsIdsUnique | src/sbmlplugin/pane/SBaseTable.java:61-68 | removing a member keeps the member ids unique |
| SBaseTable.ContainsDuplicateId | src/sbmlplugin/pane/SBaseTable.java:96-103 | the result is true iff some member that is a different object from `sbase` has the same id; so false on an empty list and when the only same-id member is `sbase` itself; the member list is a value and is left as it was |
| SBaseTable.IdsUniqueIffNoDuplicate | src/sbmlplugin/pane/SBaseTable.java:96-103 | the member ids are unique across distinct objects exactly when no member would be reported as a duplicate |

## Left out

- ImageJ's `ImagePlus`, `ImageStack`, `FileInfo` and `FileSaver` are reduced to records. Only 8-bit stacks are modelled; the cast of a slice to `byte[]` cannot fail.
- Writing the TIFF file: `SaveAsImage` returns which save `FileSaver` is asked for and under which file name.
- Flatten.SetRawImage: the 32-bit products `width*height*depth` and `(i-1)*height*width` are unbounded integers here. An image large enough to overflow them is not modelled.
- SpatialImage.UpdateImage: when the copy throws, the source has already set `depth` and written part of `raw`. The model reports the exception without the half-updated object.
- SpatialImage.SetImage: same as UpdateImage: the partly rebuilt `raw` after an exception is not modelled.
- Spacing is `real`, and the division by 1000 is exact. Java's double rounding is not modelled.
- A null sampled-value map is not modelled. The map's values are never read (DomainTypesIgnoreValues), so null values in it play no part.
- Plain getters and setters, and the fields `hashDomainNum`, `adjacentsList`, `hashDomInteriorPt` and `title`, take part in no logic.
- All Swing code in SBaseTable (`removeSelectedFromTable`, `errDupID`, `setTableProperties`, `setColumnSize`, `setTableToScroll`, `MyTableModel`) is left out, as are the abstract `add` and `edit`.
- libSBML `SBase` and `ListOf` are reduced to (reference, id) pairs and a sequence whose `remove(i)` shifts later entries down. A null `list` is not modelled.
- SBaseTable.RemoveFromList: its contract describes `list` through the entries it keeps. The exact result, including skipped neighbours, is RemoveMatchingIds, tied to the loop by RemoveMatchingIdsLoop.
- `src/sbmlplugin/Spatial_Img_SBML.java` is plugin entry glue: native library loading and `System.exit`.
- `src/main/java/jp/ac/keio/bio/fun/xitosbml/xitosbml/MainModelValidator.java` is file dialogs, document loading and online validation.

## Findings

| source | as written | input that shows it | evidently intended | confidence | as-written member | corrected member |
|---|---|---|---|---|---|---|
| src/sbmlplugin/pane/SBaseTable.java:64-66 | after `list.remove(i)` the loop still increments `i`, so the entry that shifted into position `i` is never examined | `list` holding two neighbouring entries with the removed member's id: the second one stays | remove every entry whose id equals the removed member's id | low (not executed; SBML ids are meant to be unique, so this only arises when the duplicate check was bypassed) | SBaseTable.RemoveMatchingIdsSkipsNeighbour | SBaseTable.RemoveAllWithId |

`RemoveFromList` keeps the code's behaviour (the skip). `RemoveAllWithId` is the corrected removal. `RemoveFromListUniqueIds` proves that the two agree whenever the ids in `list` are unique.
