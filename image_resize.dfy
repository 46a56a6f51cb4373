/** The decision logic of the image-resize command: argument validation,
    the resize parameters, the choice of target size, the aspect-ratio
    warning and the name of the output file, and the way the command
    chains them. The opened image is replaced by its pixel size, the
    argument namespace by a record, and floating-point numbers by exact
    reals. */
module ImageResize {
  import opened Wrappers
  import opened Decimal
  import opened PosixPath

  // ---------------------------------------------------------------- arguments

  /** The parsed command line; an absent option is `None`. */
  datatype CliArgs = CliArgs(
    file: string,
    width: Option<int>,
    height: Option<int>,
    scale: Option<real>,
    output: Option<string>)

  /** Python truthiness of an optional number or string: `None`, zero and
      the empty string are false. */
  predicate IntTruthy(o: Option<int>) {
    o.Some? && o.value != 0
  }

  predicate RealTruthy(o: Option<real>) {
    o.Some? && o.value != 0.0
  }

  predicate StringTruthy(o: Option<string>) {
    o.Some? && o.value != []
  }

  datatype ValidationError = NoModeSpecified | ConflictingModes | NonPositiveValue

  function ErrorMessage(e: ValidationError): string {
    match e
    case NoModeSpecified => "You must specify at least one argument."
    case ConflictingModes => "You must specify only width/height or scale. Not both."
    case NonPositiveValue => "Values of arguments must be greater than 0"
  }

  /** Each rejection is reported with its own message. */
  lemma ErrorMessagesDistinct(e1: ValidationError, e2: ValidationError)
    ensures ErrorMessage(e1) == ErrorMessage(e2) <==> e1 == e2
  {
  }

  predicate NoneGiven(a: CliArgs) {
    a.width.None? && a.height.None? && a.scale.None?
  }

  predicate GivenArePositive(a: CliArgs) {
    (a.width.Some? ==> a.width.value > 0)
    && (a.height.Some? ==> a.height.value > 0)
    && (a.scale.Some? ==> a.scale.value > 0.0)
  }

  /** What an accepted request looks like: some option given, every given
      option positive, and a scale never combined with a width or height. */
  predicate IsResizeRequest(a: CliArgs) {
    !NoneGiven(a)
    && GivenArePositive(a)
    && !(a.scale.Some? && (a.width.Some? || a.height.Some?))
  }

  /** `validate_arguments`: `None` when the options are acceptable, else
      the first rule that rejects them. */
  function ValidateArguments(a: CliArgs): (r: Option<ValidationError>)
    ensures r == Some(NoModeSpecified) <==> NoneGiven(a)
    ensures r == Some(ConflictingModes) ==> a.scale.Some? && (a.width.Some? || a.height.Some?)
    ensures r == Some(NonPositiveValue) ==> !GivenArePositive(a)
    ensures r == None <==> IsResizeRequest(a)
  {
    if NoneGiven(a) then Some(NoModeSpecified)
    else if (IntTruthy(a.width) || IntTruthy(a.height)) && RealTruthy(a.scale) then Some(ConflictingModes)
    else if !GivenArePositive(a) then Some(NonPositiveValue)
    else None
  }

  /** The conflict rule looks at truthiness: a zero counts as not given. */
  lemma ConflictRule(a: CliArgs)
    ensures ValidateArguments(a) == Some(ConflictingModes)
            <==> RealTruthy(a.scale) && (IntTruthy(a.width) || IntTruthy(a.height))
  {
  }

  /** Every request that is neither empty nor a truthy conflict, and that
      has a given value of zero or less, is rejected for non-positivity. */
  lemma NonPositiveRule(a: CliArgs)
    ensures ValidateArguments(a) == Some(NonPositiveValue)
            <==> !NoneGiven(a)
                 && !(RealTruthy(a.scale) && (IntTruthy(a.width) || IntTruthy(a.height)))
                 && !GivenArePositive(a)
  {
  }

  /** A zero width next to a scale is reported as non-positive, not as a conflict. */
  lemma ZeroWidthWithScale()
    ensures ValidateArguments(CliArgs("a.png", Some(0), None, Some(2.0), None)) == Some(NonPositiveValue)
    ensures ValidateArguments(CliArgs("a.png", Some(5), Some(0), Some(0.0), None)) == Some(NonPositiveValue)
  {
  }

  // ---------------------------------------------------------------- parameters

  /** A pair of sides in pixels: the size of an opened image, or the
      `(new_width, new_height)` a resize aims at. */
  datatype Size = Size(width: int, height: int)

  /** A size an opened image can have: no side is negative. */
  predicate PixelSize(s: Size) {
    s.width >= 0 && s.height >= 0
  }

  /** The parameter dictionary of `get_resize_params`, without the image
      handle itself. */
  datatype ResizeParams = ResizeParams(
    file: string,
    width: Option<int>,
    height: Option<int>,
    scale: Option<real>,
    output: Option<string>,
    imageWidth: int,
    imageHeight: int,
    originRatio: real)

  /** `get_proporsion_ratio`: width over height, as a true division. */
  function ProportionRatio(width: int, height: int): (r: real)
    requires height != 0
    ensures r * height as real == width as real
  {
    width as real / height as real
  }

  /** `get_resize_params`: copies the options and records the image size
      and its aspect ratio. */
  function GetResizeParams(image: Size, args: CliArgs): (p: ResizeParams)
    requires image.height > 0
    ensures p.file == args.file && p.output == args.output
    ensures p.width == args.width && p.height == args.height && p.scale == args.scale
    ensures p.imageWidth == image.width && p.imageHeight == image.height
    ensures p.originRatio * image.height as real == image.width as real
  {
    ResizeParams(args.file, args.width, args.height, args.scale, args.output,
                 image.width, image.height, ProportionRatio(image.width, image.height))
  }

  /** Parameters whose ratio is the ratio of their own image size, as
      `get_resize_params` makes them. */
  predicate WellFormed(p: ResizeParams) {
    p.imageWidth >= 0 && p.imageHeight > 0
    && p.originRatio * p.imageHeight as real == p.imageWidth as real
  }

  // ---------------------------------------------------------------- planning

  /** Python's `int()` on a float: truncation toward zero. */
  function Trunc(x: real): (n: int)
    ensures 0.0 <= x ==> 0 <= n && n as real <= x < n as real + 1.0
    ensures x < 0.0 ==> n <= 0 && n as real - 1.0 < x <= n as real
  {
    if x >= 0.0 then x.Floor else -((-x).Floor)
  }

  /** The four branches of `get_resize_info`, in the order they are tried. */
  predicate ScaleBranch(p: ResizeParams) {
    RealTruthy(p.scale)
  }

  predicate BothBranch(p: ResizeParams) {
    !RealTruthy(p.scale) && IntTruthy(p.width) && IntTruthy(p.height)
  }

  predicate WidthBranch(p: ResizeParams) {
    !RealTruthy(p.scale) && IntTruthy(p.width) && !IntTruthy(p.height)
  }

  predicate HeightBranch(p: ResizeParams) {
    !RealTruthy(p.scale) && !IntTruthy(p.width) && IntTruthy(p.height)
  }

  /** Some branch is taken (otherwise the locals are unbound), and the
      width-only branch does not divide by a zero ratio. */
  predicate CanPlan(p: ResizeParams) {
    ScaleBranch(p) || BothBranch(p) || (WidthBranch(p) && p.originRatio != 0.0) || HeightBranch(p)
  }

  /** `get_resize_info`: the target size. */
  function GetResizeInfo(p: ResizeParams): (r: Size)
    requires CanPlan(p)
    ensures BothBranch(p) ==> r == Size(p.width.value, p.height.value)
    ensures WidthBranch(p) ==> r.width == p.width.value
    ensures HeightBranch(p) ==> r.height == p.height.value
  {
    if RealTruthy(p.scale) then
      Size(Trunc(p.imageWidth as real * p.scale.value), Trunc(p.imageHeight as real * p.scale.value))
    else if IntTruthy(p.width) && IntTruthy(p.height) then
      Size(p.width.value, p.height.value)
    else if IntTruthy(p.width) then
      Size(p.width.value, Trunc(p.width.value as real / p.originRatio))
    else
      Size(Trunc(p.height.value as real * p.originRatio), p.height.value)
  }

  /** On accepted options the branch is fixed by which options are given,
      and exactly one branch applies. */
  lemma ValidatedBranch(image: Size, args: CliArgs)
    requires ValidateArguments(args) == None && image.height > 0
    ensures var p := GetResizeParams(image, args);
      && (ScaleBranch(p) <==> args.scale.Some?)
      && (BothBranch(p) <==> args.width.Some? && args.height.Some?)
      && (WidthBranch(p) <==> args.width.Some? && args.height.None?)
      && (HeightBranch(p) <==> args.width.None? && args.height.Some?)
      && (ScaleBranch(p) || BothBranch(p) || WidthBranch(p) || HeightBranch(p))
  {
  }

  /** Accepted options can always be planned, except in the width-only
      branch for an image of width zero, whose ratio is zero. */
  lemma ValidatedCanPlan(image: Size, args: CliArgs)
    requires ValidateArguments(args) == None && PixelSize(image) && image.height > 0
    ensures var p := GetResizeParams(image, args);
      CanPlan(p) <==> image.width > 0 || !WidthBranch(p)
  {
  }

  /** Accepted options never plan a negative side. */
  lemma ValidatedPlanNonNegative(image: Size, args: CliArgs)
    requires ValidateArguments(args) == None && PixelSize(image) && image.height > 0
    requires CanPlan(GetResizeParams(image, args))
    ensures PixelSize(GetResizeInfo(GetResizeParams(image, args)))
  {
  }

  /** Scale mode: each side is the floor of the scaled source side. */
  lemma ScaleTarget(p: ResizeParams)
    requires ScaleBranch(p) && p.scale.value > 0.0
    requires p.imageWidth >= 0 && p.imageHeight >= 0
    ensures var r := GetResizeInfo(p);
      && 0 <= r.width && r.width as real <= p.imageWidth as real * p.scale.value < r.width as real + 1.0
      && 0 <= r.height && r.height as real <= p.imageHeight as real * p.scale.value < r.height as real + 1.0
  {
  }

  /** A scale of one keeps the source size. */
  lemma ScaleOneIsIdentity(p: ResizeParams)
    requires ScaleBranch(p) && p.scale.value == 1.0
    ensures GetResizeInfo(p) == Size(p.imageWidth, p.imageHeight)
  {
  }

  /** A truthy scale wins over any width and height. */
  lemma ScaleTakesPrecedence(p: ResizeParams, width: Option<int>, height: Option<int>)
    requires ScaleBranch(p)
    ensures GetResizeInfo(p.(width := width, height := height)) == GetResizeInfo(p)
  {
  }

  lemma MulMono(a: real, b: real, c: real)
    requires a <= b && c >= 0.0
    ensures a * c <= b * c
  {
  }

  lemma MulStrict(a: real, b: real, c: real)
    requires a < b && c > 0.0
    ensures a * c < b * c
  {
  }

  /** With ratio * H == W, a floor of w / ratio is a floor of w * H / W. */
  lemma DivideByRatio(w: real, ratio: real, bigW: real, bigH: real, d: real)
    requires ratio > 0.0 && bigH > 0.0 && ratio * bigH == bigW
    requires d <= w / ratio < d + 1.0
    ensures d * bigW <= w * bigH < (d + 1.0) * bigW
  {
    var x := w / ratio;
    var e := d + 1.0;
    assert x * ratio == w;
    MulMono(d, x, ratio);
    MulStrict(x, e, ratio);
    var lo, hi := d * ratio, e * ratio;
    assert lo <= w < hi;
    MulMono(lo, w, bigH);
    MulStrict(w, hi, bigH);
    assert lo * bigH == d * bigW;
    assert hi * bigH == e * bigW;
  }

  /** Width-only mode: the height is the floor of width over source ratio,
      i.e. new height times source width is at most width times source
      height, and one more would exceed it. */
  lemma WidthOnlyTarget(p: ResizeParams)
    requires WellFormed(p) && p.imageWidth > 0
    requires WidthBranch(p) && p.width.value > 0
    ensures var r := GetResizeInfo(p);
      && r.width == p.width.value && r.height >= 0
      && r.height * p.imageWidth <= p.width.value * p.imageHeight < (r.height + 1) * p.imageWidth
  {
    var w, bigW, bigH, ratio := p.width.value as real, p.imageWidth as real, p.imageHeight as real, p.originRatio;
    var r := GetResizeInfo(p);
    var d := r.height as real;
    assert ratio > 0.0 by {
      assert ratio * bigH > 0.0;
    }
    assert w / ratio >= 0.0;
    DivideByRatio(w, ratio, bigW, bigH, d);
    assert (r.height * p.imageWidth) as real == d * bigW;
    assert ((r.height + 1) * p.imageWidth) as real == (d + 1.0) * bigW;
    assert (p.width.value * p.imageHeight) as real == w * bigH;
  }

  /** With ratio * H == W, a floor of h * ratio is a floor of h * W / H. */
  lemma MultiplyByRatio(h: real, ratio: real, bigW: real, bigH: real, d: real)
    requires bigH > 0.0 && ratio * bigH == bigW
    requires d <= h * ratio < d + 1.0
    ensures d * bigH <= h * bigW < (d + 1.0) * bigH
  {
    var x := h * ratio;
    var e := d + 1.0;
    MulMono(d, x, bigH);
    MulStrict(x, e, bigH);
    assert x * bigH == h * bigW;
    assert h * bigW < e * bigH;
  }

  /** Height-only mode: the width is the floor of height times source ratio,
      i.e. new width times source height is at most height times source
      width, and one more would exceed it. */
  lemma HeightOnlyTarget(p: ResizeParams)
    requires WellFormed(p)
    requires HeightBranch(p) && p.height.value > 0
    ensures var r := GetResizeInfo(p);
      && r.height == p.height.value && r.width >= 0
      && r.width * p.imageHeight <= p.height.value * p.imageWidth < (r.width + 1) * p.imageHeight
  {
    var h, bigW, bigH, ratio := p.height.value as real, p.imageWidth as real, p.imageHeight as real, p.originRatio;
    var r := GetResizeInfo(p);
    var d := r.width as real;
    assert ratio >= 0.0 by {
      assert ratio * bigH >= 0.0;
    }
    MulMono(0.0, h, ratio);
    MultiplyByRatio(h, ratio, bigW, bigH, d);
    assert (r.width * p.imageHeight) as real == d * bigH;
    assert ((r.width + 1) * p.imageHeight) as real == (d + 1.0) * bigH;
    assert (p.height.value * p.imageWidth) as real == h * bigW;
  }

  lemma PlanExamples()
    ensures GetResizeInfo(GetResizeParams(Size(100, 50), CliArgs("a.png", None, None, Some(2.0), None))) == Size(200, 100)
    ensures GetResizeInfo(GetResizeParams(Size(200, 100), CliArgs("a.png", Some(50), None, None, None))) == Size(50, 25)
    ensures GetResizeInfo(GetResizeParams(Size(200, 100), CliArgs("a.png", None, Some(25), None, None))) == Size(50, 25)
    ensures GetResizeInfo(GetResizeParams(Size(200, 100), CliArgs("a.png", Some(50), Some(50), None, None))) == Size(50, 50)
    ensures GetResizeInfo(GetResizeParams(Size(10, 10), CliArgs("a.png", None, None, Some(0.1), None))) == Size(1, 1)
    ensures GetResizeInfo(GetResizeParams(Size(200, 100), CliArgs("a.png", Some(1), None, None, None))) == Size(1, 0)
  {
  }

  // ---------------------------------------------------------------- drift

  /** The largest ratio difference that passes without a warning. */
  const AllowedRatioDelta: real := 0.1

  function Abs(x: real): real {
    if x < 0.0 then -x else x
  }

  /** `check_resized_proportions`: whether the warning is printed. */
  function CheckResizedProportions(newSizes: Size, p: ResizeParams): (warn: bool)
    requires newSizes.height != 0
    ensures !warn <==> p.originRatio - AllowedRatioDelta
                       <= ProportionRatio(newSizes.width, newSizes.height)
                       <= p.originRatio + AllowedRatioDelta
  {
    Abs(p.originRatio - ProportionRatio(newSizes.width, newSizes.height)) > AllowedRatioDelta
  }

  /** Two ratios of cross-multiplied-equal sides are equal. */
  lemma EqualRatios(r: real, o: real, sw: real, sh: real, bigW: real, bigH: real)
    requires sh != 0.0 && bigH != 0.0
    requires r * sh == sw && o * bigH == bigW && sw * bigH == bigW * sh
    ensures r == o
  {
    var k := sh * bigH;
    assert k != 0.0;
    assert r * k == sw * bigH;
    assert o * k == bigW * sh;
    assert (r - o) * k == 0.0;
  }

  /** A target with exactly the source proportions never warns. */
  lemma SameProportionsNeverWarn(p: ResizeParams, s: Size)
    requires WellFormed(p) && s.height != 0
    requires s.width * p.imageHeight == p.imageWidth * s.height
    ensures !CheckResizedProportions(s, p)
  {
    var sw, sh := s.width as real, s.height as real;
    assert (s.width * p.imageHeight) as real == sw * p.imageHeight as real;
    assert (p.imageWidth * s.height) as real == p.imageWidth as real * sh;
    EqualRatios(ProportionRatio(s.width, s.height), p.originRatio, sw, sh,
                p.imageWidth as real, p.imageHeight as real);
  }

  /** Scaling by one never warns. */
  lemma ScaleOneNeverWarns(p: ResizeParams)
    requires WellFormed(p) && ScaleBranch(p) && p.scale.value == 1.0
    ensures GetResizeInfo(p).height != 0 && !CheckResizedProportions(GetResizeInfo(p), p)
  {
  }

  /** The source's own example, and the warnings that the truncation of
      scale and one-side modes can raise. */
  lemma DriftExamples()
    ensures CheckResizedProportions(Size(50, 50), GetResizeParams(Size(200, 100), CliArgs("a.png", Some(50), Some(50), None, None)))
    ensures var p := GetResizeParams(Size(10, 3), CliArgs("a.png", None, None, Some(0.5), None));
      GetResizeInfo(p) == Size(5, 1) && CheckResizedProportions(Size(5, 1), p)
    ensures var p := GetResizeParams(Size(200, 100), CliArgs("a.png", Some(3), None, None, None));
      GetResizeInfo(p) == Size(3, 1) && CheckResizedProportions(Size(3, 1), p)
  {
  }

  // ---------------------------------------------------------------- output path

  /** The `__{width}x{height}` tag put before the extension. */
  function SizeTag(width: nat, height: nat): (t: string)
    ensures Sep !in t && ExtSep !in t
  {
    "__" + NatToDecimal(width) + "x" + NatToDecimal(height)
  }

  /** The new file name of `save_image`: the size tag goes between the
      root and the extension. */
  function NewFilename(file: string, width: nat, height: nat): string {
    SplitExt(file).0 + SizeTag(width, height) + SplitExt(file).1
  }

  /** The new name splits into the tagged root and the original extension. */
  lemma NewFilenameSplits(file: string, width: nat, height: nat)
    ensures SplitExt(NewFilename(file, width, height))
            == (SplitExt(file).0 + SizeTag(width, height), SplitExt(file).1)
  {
    SplitExtInsert(file, SizeTag(width, height));
  }

  /** The path `save_image` writes to: the new file name, placed under the
      output directory when one is given and non-empty. */
  function NewFilePath(file: string, output: Option<string>, width: nat, height: nat): string {
    if StringTruthy(output) then Join(output.value, NewFilename(file, width, height))
    else NewFilename(file, width, height)
  }

  /** `save_image`: the path written to, or `None` when writing raised
      `IOError`; whether the write succeeds is a parameter. The path keeps
      the source extension, its final component is the tagged source name,
      and its directory part is the source's, under the output directory
      when one is given. */
  function SaveImage(resized: Size, p: ResizeParams, writeSucceeds: bool): (r: Option<string>)
    requires PixelSize(resized)
    ensures r.Some? <==> writeSucceeds
    ensures r.Some? ==> SplitExt(r.value).1 == SplitExt(p.file).1
    ensures r.Some? ==> Tail(r.value) == NewFilename(Tail(p.file), resized.width, resized.height)
    ensures r.Some? ==> Head(r.value)
                        == if StringTruthy(p.output) then Join(p.output.value, Head(p.file)) else Head(p.file)
  {
    OutputPathKeepsExtension(p.file, p.output, resized.width, resized.height);
    OutputPathParts(p.file, p.output, resized.width, resized.height);
    if writeSucceeds then Some(NewFilePath(p.file, p.output, resized.width, resized.height)) else None
  }

  /** Regrouping of a four-part concatenation, stated once so that the
      proof below does not search for it. */
  lemma ConcatAssoc(a: string, b: string, c: string, d: string)
    ensures (a + b) + c + d == a + (b + c + d)
  {
  }

  /** Only the final component is renamed: the directory part of the
      source path is kept as it is. */
  lemma NewFilenameUnderDir(file: string, width: nat, height: nat)
    ensures NewFilename(file, width, height) == Head(file) + NewFilename(Tail(file), width, height)
  {
    var head, tail := Head(file), Tail(file);
    assert SplitExt(file) == (head + SplitExt(tail).0, SplitExt(tail).1) by {
      SplitExtHeadTail(file);
    }
    ConcatAssoc(head, SplitExt(tail).0, SizeTag(width, height), SplitExt(tail).1);
  }

  lemma NameHasNoSep(file: string, width: nat, height: nat)
    ensures Sep !in NewFilename(Tail(file), width, height)
  {
  }

  /** The extension of the written path is the extension of the source. */
  lemma OutputPathKeepsExtension(file: string, output: Option<string>, width: nat, height: nat)
    ensures SplitExt(NewFilePath(file, output, width, height)).1 == SplitExt(file).1
  {
    var name := NewFilename(file, width, height);
    NewFilenameSplits(file, width, height);
    if StringTruthy(output) && !(|name| > 0 && name[0] == Sep) {
      JoinCases(output.value, name);
      SplitExtUnderDir(JoinDir(output.value), name);
    }
  }

  /** The written path's final component is the tagged source file name,
      and its directory part is the source's, under the output directory
      when one is given. */
  lemma OutputPathParts(file: string, output: Option<string>, width: nat, height: nat)
    ensures Tail(NewFilePath(file, output, width, height)) == NewFilename(Tail(file), width, height)
    ensures Head(NewFilePath(file, output, width, height))
            == if StringTruthy(output) then Join(output.value, Head(file)) else Head(file)
  {
    var name := NewFilename(file, width, height);
    var base := NewFilename(Tail(file), width, height);
    NewFilenameUnderDir(file, width, height);
    NameHasNoSep(file, width, height);
    RFindAppend(Head(file), base, Sep);
    RFindAbsent(base, Sep);
    var s := RFind(file, Sep);
    RFindUnique(Head(file), Sep, s);
    assert Head(name) == Head(file) by {
      assert name[..s + 1] == Head(file);
    }
    assert Tail(name) == base by {
      assert name[s + 1..] == base;
    }
    if StringTruthy(output) {
      JoinTail(output.value, name);
      JoinHead(output.value, name);
    }
  }

  /** The new name from a known split of the source name. */
  lemma NewFilenameOfSplit(file: string, root: string, ext: string, width: nat, height: nat)
    requires SplitExt(file) == (root, ext)
    ensures NewFilename(file, width, height) == root + SizeTag(width, height) + ext
  {
  }

  lemma PhotoTag()
    ensures SizeTag(300, 200) == "__300x200"
  {
    NatToDecimalExamples();
  }

  lemma PhotoName()
    ensures NewFilename("photo.jpg", 300, 200) == "photo__300x200.jpg"
  {
    SplitExtExamplePhoto();
    PhotoTag();
    NewFilenameOfSplit("photo.jpg", "photo", ".jpg", 300, 200);
  }

  /** The new name of a relative path is relative too. */
  lemma NewFilenameRelative(file: string, width: nat, height: nat)
    requires file == [] || file[0] != Sep
    ensures var name := NewFilename(file, width, height); |name| > 0 && name[0] != Sep
  {
    var (root, ext) := SplitExt(file);
    if root != [] {
      assert file == root + ext;
      assert root[0] == file[0];
    }
  }

  /** A relative source path is written under a non-empty output directory,
      with a `/` added when the directory does not end in one. */
  lemma OutputPathUnderDir(file: string, output: string, width: nat, height: nat)
    requires file == [] || file[0] != Sep
    requires output != []
    ensures NewFilePath(file, Some(output), width, height) == JoinDir(output) + NewFilename(file, width, height)
  {
    NewFilenameRelative(file, width, height);
    JoinCases(output, NewFilename(file, width, height));
  }

  /** With no output directory, or an empty one, the name is the path. */
  lemma OutputPathExampleHere()
    ensures NewFilePath("photo.jpg", None, 300, 200) == "photo__300x200.jpg"
    ensures NewFilePath("photo.jpg", Some(""), 300, 200) == "photo__300x200.jpg"
  {
    PhotoName();
  }

  /** `OutputPathUnderDir` with the directory and the name already known. */
  lemma OutputPathOfParts(file: string, output: string, width: nat, height: nat, dir: string, name: string)
    requires file == [] || file[0] != Sep
    requires output != [] && JoinDir(output) == dir && NewFilename(file, width, height) == name
    ensures NewFilePath(file, Some(output), width, height) == dir + name
  {
    OutputPathUnderDir(file, output, width, height);
  }

  /** One literal concatenation, proved apart so that the examples below
      stay cheap to check. */
  lemma OutPhotoPath()
    ensures "out/" + "photo__300x200.jpg" == "out/photo__300x200.jpg"
  {
  }

  lemma OutputPathExampleSlash()
    ensures NewFilePath("photo.jpg", Some("out/"), 300, 200) == "out/photo__300x200.jpg"
  {
    PhotoName();
    OutputPathOfParts("photo.jpg", "out/", 300, 200, "out/", "photo__300x200.jpg");
    OutPhotoPath();
  }

  lemma OutputPathExampleNoSlash()
    ensures NewFilePath("photo.jpg", Some("out"), 300, 200) == "out/photo__300x200.jpg"
  {
    PhotoName();
    assert JoinDir("out") == "out/";
    OutputPathOfParts("photo.jpg", "out", 300, 200, "out/", "photo__300x200.jpg");
    OutPhotoPath();
  }

  // ---------------------------------------------------------------- the command

  /** How one run of the command ends. `ZeroDivisionCrash` is an uncaught
      `ZeroDivisionError`; `warned` records whether the proportion warning
      was printed. */
  datatype Outcome =
    | UsageError(error: ValidationError)
    | OpenFailed
    | ZeroDivisionCrash
    | SaveFailed(warned: bool)
    | Saved(path: string, warned: bool)

  /** The main block: validate, open, plan, check proportions, resize,
      save. The opened image (or its absence) and whether the write
      succeeds are parameters. */
  function Run(args: CliArgs, image: Option<Size>, writeSucceeds: bool): (o: Outcome)
    requires image.Some? ==> PixelSize(image.value)
    ensures o.Saved? ==> SplitExt(o.path).1 == SplitExt(args.file).1
  {
    var v := ValidateArguments(args);
    if v.Some? then UsageError(v.value)
    else if image.None? then OpenFailed
    else if image.value.height == 0 then ZeroDivisionCrash
    else
      var p := GetResizeParams(image.value, args);
      ValidatedCanPlan(image.value, args);
      if !CanPlan(p) then ZeroDivisionCrash
      else
        var target := GetResizeInfo(p);
        ValidatedPlanNonNegative(image.value, args);
        if target.height == 0 then ZeroDivisionCrash
        else
          var warned := CheckResizedProportions(target, p);
          var saved := SaveImage(target, p, writeSucceeds);
          if saved.None? then SaveFailed(warned) else Saved(saved.value, warned)
  }

  /** The process exit status: `parser.error` exits with 2; `sys.exit`
      with a message, and an uncaught exception, exit with 1. So no run
      exits with 0, not even one that saves. */
  function ExitStatus(o: Outcome): (status: int)
    ensures status == 2 <==> o.UsageError?
    ensures status != 0
  {
    if o.UsageError? then 2 else 1
  }

  const OpenFailedMessage: string := "Failed to open image: file not found or have got wrong file format"
  const SaveFailedMessage: string := "Failed to save resized image"
  const SavedMessagePrefix: string := "Resized file saved to: "

  /** The message written on exit; `None` where an uncaught exception
      prints a traceback instead. */
  function ExitMessage(o: Outcome): Option<string> {
    match o
    case UsageError(e) => Some(ErrorMessage(e))
    case OpenFailed => Some(OpenFailedMessage)
    case ZeroDivisionCrash => None
    case SaveFailed(_) => Some(SaveFailedMessage)
    case Saved(path, _) => Some(SavedMessagePrefix + path)
  }

  /** Rejected options end the run before the image is looked at. */
  lemma RunValidatesFirst(args: CliArgs, image: Option<Size>, writeSucceeds: bool)
    requires image.Some? ==> PixelSize(image.value)
    requires ValidateArguments(args).Some?
    ensures Run(args, image, writeSucceeds) == UsageError(ValidateArguments(args).value)
  {
  }

  /** A run writes the file exactly when the options are accepted, the image
      opens with a usable size, the planned height is not zero and the write
      succeeds. */
  lemma RunSavesIff(args: CliArgs, image: Option<Size>, writeSucceeds: bool)
    requires image.Some? ==> PixelSize(image.value)
    ensures Run(args, image, writeSucceeds).Saved?
            <==> && ValidateArguments(args) == None
                 && image.Some? && image.value.height > 0
                 && CanPlan(GetResizeParams(image.value, args))
                 && GetResizeInfo(GetResizeParams(image.value, args)).height != 0
                 && writeSucceeds
  {
  }

  /** The command exits with 2 exactly when it rejects its options. */
  lemma RunExitStatus(args: CliArgs, image: Option<Size>, writeSucceeds: bool)
    requires image.Some? ==> PixelSize(image.value)
    ensures ExitStatus(Run(args, image, writeSucceeds)) == 2 <==> ValidateArguments(args).Some?
  {
  }

  /** With accepted options, an image that opens with a non-zero height, a
      plan the source can compute and a non-zero target height, the run
      saves to the tagged path (or reports the failed write), warning
      exactly when the target drifts from the source proportions. */
  lemma RunPlannedOutcome(args: CliArgs, image: Option<Size>, writeSucceeds: bool)
    requires ValidateArguments(args) == None
    requires image.Some? && PixelSize(image.value) && image.value.height > 0
    requires CanPlan(GetResizeParams(image.value, args))
    requires GetResizeInfo(GetResizeParams(image.value, args)).height != 0
    ensures var p := GetResizeParams(image.value, args);
      var t := GetResizeInfo(p);
      && PixelSize(t)
      && Run(args, image, writeSucceeds)
         == (if writeSucceeds then Saved(NewFilePath(args.file, args.output, t.width, t.height), CheckResizedProportions(t, p))
             else SaveFailed(CheckResizedProportions(t, p)))
  {
    ValidatedPlanNonNegative(image.value, args);
  }

  /** The runs that stop before planning write the rejection's message, or
      the failure to open the image. */
  lemma RunExitMessage(args: CliArgs, image: Option<Size>, writeSucceeds: bool)
    requires image.Some? ==> PixelSize(image.value)
    requires ValidateArguments(args).Some? || image.None?
    ensures var v := ValidateArguments(args);
      ExitMessage(Run(args, image, writeSucceeds))
      == Some(if v.Some? then ErrorMessage(v.value) else OpenFailedMessage)
  {
  }

  lemma RunSavesExample()
    ensures Run(CliArgs("photo.jpg", Some(300), Some(200), None, Some("out/")), Some(Size(600, 400)), true)
            == Saved("out/photo__300x200.jpg", false)
  {
    var args := CliArgs("photo.jpg", Some(300), Some(200), None, Some("out/"));
    var p := GetResizeParams(Size(600, 400), args);
    assert GetResizeInfo(p) == Size(300, 200);
    SameProportionsNeverWarn(p, Size(300, 200));
    OutputPathExampleSlash();
    RunPlannedOutcome(args, Some(Size(600, 400)), true);
  }

  lemma RunWarnsExample()
    ensures Run(CliArgs("a.png", Some(50), Some(50), None, None), Some(Size(200, 100)), false)
            == SaveFailed(true)
  {
    DriftExamples();
  }

  lemma RunCrashExample()
    ensures Run(CliArgs("photo.jpg", Some(1), None, None, None), Some(Size(200, 100)), true)
            == ZeroDivisionCrash
  {
    PlanExamples();
  }

  lemma RunRejectExamples()
    ensures Run(CliArgs("photo.jpg", None, None, None, None), None, true) == UsageError(NoModeSpecified)
    ensures Run(CliArgs("photo.jpg", Some(10), None, None, None), None, true) == OpenFailed
  {
  }
}
