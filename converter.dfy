/**
 * The conversion pipeline: select the input files, turn each into a page,
 * and write the pages as one PDF; plus the command-line entry point that
 * validates `-c` first.
 *
 * Image decoding, resizing, colour conversion and JPEG/PDF encoding are
 * library calls whose results are not visible here: a page is an opaque
 * value that records the file it came from and the parameters it was
 * produced with.
 */
module Converter {
  import opened Selection
  import opened Quality

  /** One decoded, resized and JPEG round-tripped image. */
  datatype Page = Page(source: string, scale: real, quality: int)

  /** The final `save` call: output path, first image, appended images, quality. */
  datatype Pdf = Pdf(path: string, first: Page, appended: seq<Page>, quality: int)

  /** How a run ends. */
  datatype Outcome =
    | BadCompression   // `-c` outside [1, 100]: `sys.exit(1)` in `main`
    | InvalidInput     // neither a directory nor a qualifying file: `sys.exit(1)`
    | NoImages         // nothing selected: plain `return`, no output
    | Written(pdf: Pdf)

  /** The pages of the written document, in order. */
  function Pages(pdf: Pdf): seq<Page>
  {
    [pdf.first] + pdf.appended
  }

  /** The process exit status: 1 for the two `sys.exit(1)` paths, 0 otherwise. */
  function ExitCode(o: Outcome): int
  {
    if o.BadCompression? || o.InvalidInput? then 1 else 0
  }

  /** The per-file loop: one page per selected file, in order, each at the effective quality. */
  method CollectPages(files: seq<string>, scale: real, compress: Option<int>) returns (images: seq<Page>)
    ensures |images| == |files|
    ensures forall k :: 0 <= k < |files| ==>
      images[k].source == files[k] && images[k].scale == scale && images[k].quality == EffectiveQuality(compress)
  {
    images := [];
    for k := 0 to |files|
      invariant |images| == k
      invariant forall j :: 0 <= j < k ==>
        images[j].source == files[j] && images[j].scale == scale && images[j].quality == EffectiveQuality(compress)
    {
      var path := files[k];
      var quality := EffectiveQuality(compress);
      var compressed := Page(path, scale, quality);
      images := images + [compressed];
    }
  }

  /**
   * `resize_and_compress_to_pdf`: the invalid-input exit, the soft exit on an
   * empty selection, or a document with one page per selected file.
   */
  method ResizeAndCompressToPdf(input: string, output: string, scale: real, compress: Option<int>, kind: PathKind)
    returns (o: Outcome)
    ensures !o.BadCompression?
    ensures o.InvalidInput? <==> SelectFiles(input, kind).Invalid?
    ensures o.NoImages? <==> SelectFiles(input, kind) == Files([])
    ensures o.Written? ==>
      var files := SelectFiles(input, kind).paths;
      && o.pdf.path == output
      && o.pdf.quality == EffectiveQuality(compress)
      && |Pages(o.pdf)| == |files| >= 1
      && forall k :: 0 <= k < |files| ==>
        Pages(o.pdf)[k] == Page(files[k], scale, EffectiveQuality(compress))
  {
    var selected := SelectFiles(input, kind);
    if selected.Invalid? {
      return InvalidInput;
    }
    var files := selected.paths;
    if files == [] {
      return NoImages;
    }
    var images := CollectPages(files, scale, compress);
    var firstImage := images[0];
    var otherImages := images[1..];
    var quality := EffectiveQuality(compress);
    o := Written(Pdf(output, firstImage, otherImages, quality));
    assert Pages(o.pdf) == images;
  }

  /** The command-line arguments after parsing. */
  datatype CliArgs = CliArgs(input: string, output: string, scale: real, compress: Option<int>)

  /**
   * `main`: an out-of-range `-c` stops the run before the input is looked at;
   * otherwise the conversion runs with the parsed arguments.
   */
  method RunCli(args: CliArgs, kind: PathKind) returns (o: Outcome)
    ensures o.BadCompression? <==> !CompressAccepted(args.compress)
    ensures ExitCode(o) == 1 <==>
      !CompressAccepted(args.compress) || SelectFiles(args.input, kind).Invalid?
    ensures CompressAccepted(args.compress) ==>
      (o.NoImages? <==> SelectFiles(args.input, kind) == Files([]))
    ensures (CompressAccepted(args.compress) && SelectFiles(args.input, kind).Files? &&
      SelectFiles(args.input, kind).paths != []) ==> o.Written?
    ensures o.Written? ==>
      var files := SelectFiles(args.input, kind).paths;
      && o.pdf.path == args.output
      && 1 <= o.pdf.quality <= 100
      && (args.compress.Some? ==> o.pdf.quality == args.compress.value)
      && (args.compress.None? ==> o.pdf.quality == DefaultQuality)
      && |Pages(o.pdf)| == |files|
      && forall k :: 0 <= k < |files| ==> Pages(o.pdf)[k] == Page(files[k], args.scale, o.pdf.quality)
  {
    if args.compress.Some? && !(1 <= args.compress.value <= 100) {
      return BadCompression;
    }
    AcceptedQualityInRange(args.compress);
    o := ResizeAndCompressToPdf(args.input, args.output, args.scale, args.compress, kind);
  }
}
