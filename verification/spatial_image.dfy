/** SpatialImage: an 8-bit image stack turned into the raw buffer, domain
    types and voxel spacing that the Spatial SBML geometry is built from. */
module SpatialImage {
  import opened Wrappers
  import opened Strings
  import opened Flatten

  /** The unit every coordinate component is written in (micrometres). */
  const CanonicalUnit: string := "um"

  /** The only file unit that is converted (nanometres). */
  const Nanometre: string := "nm"

  /** Nanometres per micrometre. */
  const NanometresPerMicrometre: real := 1000.0

  /** The name fragment that marks a domain type as a membrane. */
  const MembraneMarker: string := "membrane"

  /** Voxel spacing along x, y and z. */
  datatype Point3d = Point3d(x: real, y: real, z: real)

  /** The calibration ImageJ reads from the image file; `unit` is null when
      the file records none. */
  datatype FileInfo = FileInfo(pixelWidth: real, pixelHeight: real, pixelDepth: real, unit: Option<string>)

  /** ImageJ's stack of slices, all declared `width` x `height`. */
  datatype ImageStack = ImageStack(width: nat, height: nat, planes: seq<Plane>)

  /** ImageJ's image object, reduced to what SpatialImage reads of it: its
      width and height are those of its stack. */
  datatype ImagePlus = ImagePlus(stack: ImageStack, fileInfo: FileInfo)

  /** The state of one SpatialImage object. `hashDomainTypes` is null until
      it is given or created. */
  datatype State = State(
    raw: seq<byte>,
    width: nat,
    height: nat,
    depth: nat,
    img: ImagePlus,
    hashSampledValue: map<string, int>,
    hashDomainTypes: Option<map<string, int>>,
    unit: string,
    delta: Point3d)

  /** Pixels per slice. */
  function PlaneSize(si: State): nat
  {
    si.width * si.height
  }

  /** `raw` holds, byte for byte and in order, the first `depth` slices of
      the image's stack. */
  predicate RawMatchesStack(si: State)
  {
    && AllReadable(si.img.stack.planes, PlaneSize(si), si.depth)
    && Placed(si.raw, si.img.stack.planes, PlaneSize(si), si.depth)
  }

  /** What a freshly constructed SpatialImage satisfies: its dimensions are
      the image's, its buffer is the flattened stack, its unit is "um". */
  predicate Consistent(si: State)
  {
    && si.width == si.img.stack.width
    && si.height == si.img.stack.height
    && si.depth == |si.img.stack.planes|
    && RawMatchesStack(si)
    && si.unit == CanonicalUnit
  }

  // ---------------------------------------------------------------------
  // Unit and spacing
  // ---------------------------------------------------------------------

  /** The spacing as the file records it. */
  function FileDelta(fi: FileInfo): Point3d
  {
    Point3d(fi.pixelWidth, fi.pixelHeight, fi.pixelDepth)
  }

  /** `adjustUnit`: a spacing given in nanometres is rescaled to
      micrometres; any other unit is taken to be micrometres already. */
  function AdjustUnit(delta: Point3d, unit: string): (r: Point3d)
    ensures unit == Nanometre ==>
      && r.x * NanometresPerMicrometre == delta.x
      && r.y * NanometresPerMicrometre == delta.y
      && r.z * NanometresPerMicrometre == delta.z
    ensures unit != Nanometre ==> r == delta
  {
    if unit == Nanometre then
      Point3d(delta.x / NanometresPerMicrometre, delta.y / NanometresPerMicrometre, delta.z / NanometresPerMicrometre)
    else delta
  }

  /** The spacing both constructors store: the file's spacing, adjusted
      only when the file names a unit. In micrometres it is the file's
      spacing exactly when the file does not say "nm". */
  function InitialDelta(fi: FileInfo): (r: Point3d)
    ensures fi.unit == Some(Nanometre) ==>
      && r.x * NanometresPerMicrometre == fi.pixelWidth
      && r.y * NanometresPerMicrometre == fi.pixelHeight
      && r.z * NanometresPerMicrometre == fi.pixelDepth
    ensures fi.unit != Some(Nanometre) ==> r == FileDelta(fi)
  {
    match fi.unit
    case None => FileDelta(fi)
    case Some(u) => AdjustUnit(FileDelta(fi), u)
  }

  // ---------------------------------------------------------------------
  // Construction and image replacement
  // ---------------------------------------------------------------------

  /** The body the two constructors share: read the dimensions and the
      calibration of `img`, fix the unit to "um", flatten the stack. */
  function Construct(hashSampledValue: map<string, int>, hashDomainTypes: Option<map<string, int>>, img: ImagePlus)
    : (r: Result<State, StackError>)
    ensures r.Success? <==> AllReadable(img.stack.planes, img.stack.width * img.stack.height, |img.stack.planes|)
    ensures r.Failure? ==> IsFirstFailure(img.stack.planes, img.stack.width * img.stack.height, |img.stack.planes|, r.error)
    ensures r.Success? ==>
      && Consistent(r.value)
      && r.value.img == img
      && r.value.hashSampledValue == hashSampledValue
      && r.value.hashDomainTypes == hashDomainTypes
      && r.value.delta == InitialDelta(img.fileInfo)
  {
    var width := img.stack.width;
    var height := img.stack.height;
    var depth := |img.stack.planes|;
    match CopyPlanes(img.stack.planes, width * height, depth)
    case Failure(e) => Failure(e)
    case Success(raw) =>
      CopyPlanesPlaced(img.stack.planes, width * height, depth);
      Success(State(raw, width, height, depth, img, hashSampledValue, hashDomainTypes,
                           CanonicalUnit, InitialDelta(img.fileInfo)))
  }

  /** The constructor taking sampled values, domain types and the image. */
  function Create(hashSampledValue: map<string, int>, hashDomainTypes: Option<map<string, int>>, img: ImagePlus)
    : (r: Result<State, StackError>)
    ensures r.Success? <==> AllReadable(img.stack.planes, img.stack.width * img.stack.height, |img.stack.planes|)
    ensures r.Failure? ==> IsFirstFailure(img.stack.planes, img.stack.width * img.stack.height, |img.stack.planes|, r.error)
    ensures r.Success? ==>
      && Consistent(r.value)
      && r.value.img == img
      && r.value.hashSampledValue == hashSampledValue
      && r.value.hashDomainTypes == hashDomainTypes
      && r.value.unit == CanonicalUnit
      && r.value.delta == InitialDelta(img.fileInfo)
  {
    Construct(hashSampledValue, hashDomainTypes, img)
  }

  /** The constructor used for model editing: no domain types are given,
      so they stay null. */
  function CreateForEditing(hashSampledValue: map<string, int>, img: ImagePlus)
    : (r: Result<State, StackError>)
    ensures r.Success? <==> AllReadable(img.stack.planes, img.stack.width * img.stack.height, |img.stack.planes|)
    ensures r.Failure? ==> IsFirstFailure(img.stack.planes, img.stack.width * img.stack.height, |img.stack.planes|, r.error)
    ensures r.Success? ==>
      && Consistent(r.value)
      && r.value.img == img
      && r.value.hashSampledValue == hashSampledValue
      && r.value.hashDomainTypes.None?
      && r.value.unit == CanonicalUnit
      && r.value.delta == InitialDelta(img.fileInfo)
  {
    Construct(hashSampledValue, None, img)
  }

  /** `updateImage`: the stack is replaced, `depth` becomes the new stack's
      size and the buffer is rebuilt, still with the stored width and
      height. Nothing else changes. */
  function UpdateImage(si: State, imStack: ImageStack): (r: Result<State, StackError>)
    ensures r.Success? <==> AllReadable(imStack.planes, PlaneSize(si), |imStack.planes|)
    ensures r.Failure? ==> IsFirstFailure(imStack.planes, PlaneSize(si), |imStack.planes|, r.error)
    ensures r.Success? ==>
      && r.value.depth == |imStack.planes|
      && r.value.img == si.img.(stack := imStack)
      && RawMatchesStack(r.value)
      && r.value == si.(depth := r.value.depth, img := r.value.img, raw := r.value.raw)
  {
    var depth := |imStack.planes|;
    match CopyPlanes(imStack.planes, PlaneSize(si), depth)
    case Failure(e) => Failure(e)
    case Success(raw) =>
      CopyPlanesPlaced(imStack.planes, PlaneSize(si), depth);
      Success(si.(depth := depth, img := si.img.(stack := imStack), raw := raw))
  }

  /** `setImage`: the image is replaced and the buffer rebuilt with the
      stored width, height and depth; a new image with fewer slices than
      `depth` makes the copy fail. Nothing else changes. */
  function SetImage(si: State, image: ImagePlus): (r: Result<State, StackError>)
    ensures r.Success? <==> AllReadable(image.stack.planes, PlaneSize(si), si.depth)
    ensures r.Failure? ==> IsFirstFailure(image.stack.planes, PlaneSize(si), si.depth, r.error)
    ensures r.Success? ==>
      && r.value.img == image
      && RawMatchesStack(r.value)
      && r.value == si.(img := image, raw := r.value.raw)
  {
    match CopyPlanes(image.stack.planes, PlaneSize(si), si.depth)
    case Failure(e) => Failure(e)
    case Success(raw) =>
      CopyPlanesPlaced(image.stack.planes, PlaneSize(si), si.depth);
      Success(si.(img := image, raw := raw))
  }

  /** Replacing the stack by one of the same slice size keeps a
      SpatialImage consistent. */
  lemma UpdateImageKeepsConsistent(si: State, imStack: ImageStack)
    requires Consistent(si)
    requires imStack.width == si.width && imStack.height == si.height
    requires UpdateImage(si, imStack).Success?
    ensures Consistent(UpdateImage(si, imStack).value)
  {
  }

  // ---------------------------------------------------------------------
  // Domain types
  // ---------------------------------------------------------------------

  /** A domain type is a membrane when its name contains "membrane". */
  predicate IsMembrane(name: string)
  {
    Contains(name, MembraneMarker)
  }

  /** The dimension of the image itself: a stack of more than one slice is
      a volume, anything else a plane. */
  function ImageDimension(depth: int): (r: int)
    ensures r == 2 || r == 3
  {
    if depth > 1 then 3 else 2
  }

  /** The spatial dimension `createHashDomainTypes` gives one domain type:
      a bulk domain has the image's dimension and a membrane one less. */
  function DomainType(name: string, depth: int): (r: int)
    ensures 1 <= r <= 3
    ensures r == ImageDimension(depth) - (if IsMembrane(name) then 1 else 0)
    ensures r == 3 ==> depth > 1 && !IsMembrane(name)
    ensures r == 1 ==> depth <= 1 && IsMembrane(name)
  {
    if IsMembrane(name) && depth > 1 then 2
    else if IsMembrane(name) then 1
    else if depth > 1 then 3
    else 2
  }

  /** A name is classified as a membrane exactly when "membrane" occurs in
      it at some position. */
  lemma IsMembraneIffOccurs(name: string)
    ensures IsMembrane(name) <==> exists i: nat :: OccursAt(name, MembraneMarker, i)
  {
    ContainsIffOccurs(name, MembraneMarker);
  }

  /** The classification of every name that has a sampled value; the
      values themselves play no part. */
  function DomainTypes(hashSampledValue: map<string, int>, depth: int): (r: map<string, int>)
    ensures r.Keys == hashSampledValue.Keys
    ensures forall s :: s in r ==> 1 <= r[s] <= 3
  {
    map s | s in hashSampledValue :: DomainType(s, depth)
  }

  /** `createHashDomainTypes`: replaces the domain types by a fresh
      classification of the sampled names; nothing else changes. */
  function CreateHashDomainTypes(si: State): (r: State)
    ensures r.hashDomainTypes.Some?
    ensures r.hashDomainTypes.value.Keys == si.hashSampledValue.Keys
    ensures forall s :: s in r.hashDomainTypes.value ==> r.hashDomainTypes.value[s] == DomainType(s, si.depth)
    ensures r == si.(hashDomainTypes := r.hashDomainTypes)
  {
    si.(hashDomainTypes := Some(DomainTypes(si.hashSampledValue, si.depth)))
  }

  /** Two sampled-value tables with the same names give the same domain
      types, whatever their pixel values. */
  lemma DomainTypesIgnoreValues(a: map<string, int>, b: map<string, int>, depth: int)
    requires a.Keys == b.Keys
    ensures DomainTypes(a, depth) == DomainTypes(b, depth)
  {
  }

  // ---------------------------------------------------------------------
  // TIFF export
  // ---------------------------------------------------------------------

  /** The file save `saveAsImage` asks ImageJ for. */
  datatype TiffExport = SaveAsTiff(file: string) | SaveAsTiffStack(file: string)

  /** A Java string in a concatenation: null prints as "null". */
  function Text(s: Option<string>): string
  {
    match s
    case None => "null"
    case Some(v) => v
  }

  /** `saveAsImage`: nothing is saved for a null name; otherwise the image
      goes to `<path>/<name>.tiff`, as a stack when it has several slices. */
  function SaveAsImage(si: State, path: Option<string>, name: Option<string>): (r: Option<TiffExport>)
    ensures r.None? <==> name.None?
    ensures r.Some? ==> (r.value.SaveAsTiffStack? <==> si.depth > 1)
    ensures r.Some? ==>
      var f := r.value.file;
      var dir := Text(path);
      && |f| == |dir| + |name.value| + 6
      && f[..|dir|] == dir
      && f[|dir|] == '/'
      && f[|dir| + 1..|f| - 5] == name.value
      && f[|f| - 5..] == ".tiff"
  {
    match name
    case None => None
    case Some(n) =>
      var file := Text(path) + "/" + n + ".tiff";
      if si.depth > 1 then Some(SaveAsTiffStack(file)) else Some(SaveAsTiff(file))
  }
}
