/**
 * The conversion planner and generator (namespace TrustOptimize\Features\Optimization,
 * class ImageConverter).  On upload it saves a base catalog record, picks the target
 * formats from the source's mime type and the settings, and for each target format
 * converts the original and then every WordPress size, recording each file the codec
 * wrote in the catalog and in WordPress's size metadata.  The image editor is an
 * oracle: a function from (source path, target path, target mime, quality) to an
 * outcome.
 */
module Converter {
  import opened Optional
  import opened PhpArray
  import opened PhpString
  import Admin
  import opened Database

  /** One planned conversion: `{target_format, target_mime}`. */
  datatype Strategy = Strategy(targetFormat: string, targetMime: string)

  /**
   * `get_conversion_strategies`: webp and avif sources go back to png whatever the
   * settings; jpeg and png sources go to avif, then webp, each when enabled; any
   * other source is not converted.
   */
  function ConversionStrategies(mime: string, avifEnabled: bool, webpEnabled: bool): (r: seq<Strategy>)
    ensures |r| <= 2
    ensures forall s :: s in r ==> s.targetMime == "image/" + s.targetFormat && s.targetMime != mime
    ensures |r| == 2 ==> r[0].targetFormat == "avif" && r[1].targetFormat == "webp"
    ensures r == [] <==> ((mime !in {"image/webp", "image/avif", "image/jpeg", "image/png"})
                          || (mime in {"image/jpeg", "image/png"} && !avifEnabled && !webpEnabled))
    ensures mime in {"image/webp", "image/avif"} ==> r == [Strategy("png", "image/png")]
    ensures mime in {"image/jpeg", "image/png"} ==>
      && (avifEnabled && webpEnabled ==> r == [Strategy("avif", "image/avif"), Strategy("webp", "image/webp")])
      && (avifEnabled && !webpEnabled ==> r == [Strategy("avif", "image/avif")])
      && (!avifEnabled && webpEnabled ==> r == [Strategy("webp", "image/webp")])
  {
    if mime in ["image/webp", "image/avif"] then
      [Strategy("png", "image/png")]
    else if mime !in ["image/jpeg", "image/png"] then
      []
    else
      (if avifEnabled then [Strategy("avif", "image/avif")] else [])
      + (if webpEnabled then [Strategy("webp", "image/webp")] else [])
  }

  /**
   * `get_quality_for_format`: avif is capped at 85 and webp at 90; any other format
   * uses the base quality.  The `trust_optimize_{format}_quality` filter is the identity.
   */
  function QualityForFormat(format: string, base: int): (q: int)
    ensures q <= base
    ensures format == "avif" ==> q <= 85 && (q == base || q == 85)
    ensures format == "webp" ==> q <= 90 && (q == base || q == 90)
    ensures format != "avif" && format != "webp" ==> q == base
  {
    match format
    case "avif" => if base < 85 then base else 85
    case "webp" => if base < 90 then base else 90
    case _ => base
  }

  /** `trailingslashit($dest_dir) . pathinfo(basename($source), PATHINFO_FILENAME) . '.' . $format`. */
  function TargetPath(destDir: string, source: string, format: string): string {
    TrailingSlashIt(destDir) + Filename(Basename(source)) + "." + format
  }

  /**
   * The converted file sits in the destination directory under the source's file name
   * stem with the target format as its extension.
   */
  lemma TargetPathParts(destDir: string, source: string, format: string)
    requires format != [] && '/' !in format && '.' !in format
    ensures Basename(TargetPath(destDir, source, format)) == Filename(Basename(source)) + "." + format
    ensures Extension(TargetPath(destDir, source, format)) == format
    ensures Filename(TargetPath(destDir, source, format)) == Filename(Basename(source))
  {
    var dir := TrailingSlashIt(destDir);
    var stem := Filename(Basename(source));
    var name := stem + "." + format;
    PathPartsNoSeparator(Basename(source));
    PathinfoOfDotted(stem, format);
    TargetPathJoin(destDir, source, format);
    BasenameOfJoin(dir, name);
    PathinfoByBasename(dir + name, name);
  }

  /** The target path is the directory joined with the target file name. */
  lemma TargetPathJoin(destDir: string, source: string, format: string)
    ensures TargetPath(destDir, source, format) == TrailingSlashIt(destDir) + (Filename(Basename(source)) + "." + format)
  {
    ConcatAssoc(TrailingSlashIt(destDir), Filename(Basename(source)) + ".", format);
    ConcatAssoc(TrailingSlashIt(destDir), Filename(Basename(source)), ".");
  }

  /** What `wp_get_image_editor` followed by `set_quality` and `save` yields. */
  datatype CodecOutcome = EditorError | SaveError | Saved(fileSize: int)

  /** The image editor: (source path, target path, target mime, quality) to an outcome. */
  type Codec = (string, string, string, int) -> CodecOutcome

  /** The annotation `update_wp_metadata` writes for a converted file. */
  function ConvertedAnnotation(filePath: string, format: string, fileSize: int, width: Option<int>, height: Option<int>): Annotation {
    Annotation(Basename(filePath), "image/" + format, fileSize, width, height)
  }

  /** A WordPress size with `trust_optimize_converted[$format]` set. */
  function SizeAnnotated(info: WpSize, format: string, filePath: string, fileSize: int): WpSize {
    info.(converted := Put(info.converted, format, ConvertedAnnotation(filePath, format, fileSize, Some(info.width), Some(info.height))))
  }

  /** The metadata with `trust_optimize_converted['original_' . $format]` set. */
  function OriginalAnnotated(m: WpMetadata, format: string, filePath: string, fileSize: int): WpMetadata {
    m.(converted := Put(m.converted, "original_" + format, ConvertedAnnotation(filePath, format, fileSize, m.width, m.height)))
  }

  /**
   * `update_wp_metadata(&$metadata, ..., &$size_info)`: the original's annotation goes
   * into the metadata under `original_<format>`, any other size's into its own size
   * info under `<format>`; nothing happens for a size without size info.
   */
  method UpdateWpMetadata(metadata: WpMetadata, sizeName: string, format: string, filePath: string, fileSize: int, sizeInfo: Option<WpSize>)
    returns (newMetadata: WpMetadata, newSizeInfo: Option<WpSize>)
    ensures sizeName == "original" ==> newMetadata == OriginalAnnotated(metadata, format, filePath, fileSize) && newSizeInfo == sizeInfo
    ensures sizeName != "original" && sizeInfo.Some? ==> newMetadata == metadata && newSizeInfo == Some(SizeAnnotated(sizeInfo.value, format, filePath, fileSize))
    ensures sizeName != "original" && sizeInfo.None? ==> newMetadata == metadata && newSizeInfo == None
  {
    newMetadata, newSizeInfo := metadata, sizeInfo;
    if sizeName == "original" {
      var data := ConvertedAnnotation(filePath, format, fileSize, metadata.width, metadata.height);
      newMetadata := metadata.(converted := Put(metadata.converted, "original_" + format, data));
    } else if sizeInfo.Some? {
      var info := sizeInfo.value;
      var data := ConvertedAnnotation(filePath, format, fileSize, Some(info.width), Some(info.height));
      newSizeInfo := Some(info.(converted := Put(info.converted, format, data)));
    }
  }

  /**
   * What `update_wp_metadata` writes into a size, the deprecated
   * `convert_from_wp_metadata` reads back as a catalog entry under the same format,
   * with the same file and size and the mime `image/<format>`.
   */
  lemma SizeAnnotationReadBack(info: WpSize, format: string, filePath: string, fileSize: int)
    requires info.converted == [] && '_' !in format
    ensures Get(LegacySize(SizeAnnotated(info, format, filePath, fileSize)).formats, format)
         == Some(FormatEntry(Basename(filePath), "image/" + format, fileSize))
  {
    var a := ConvertedAnnotation(filePath, format, fileSize, Some(info.width), Some(info.height));
    var conv := Put(info.converted, format, a);
    assert conv == [(format, a)];
    assert conv[..0] == [];
    FormatKeySpec(format);
    assert AddAnnotations(SizeFromWp(info).formats, conv) == Put(SizeFromWp(info).formats, format, AnnotationEntry(a));
  }

  /** One conversion job: a size and the file it is converted from. */
  datatype Job = Job(size: string, source: string)

  /** The jobs of the sizes loop: every WordPress size, from its file in `dir`, in order. */
  function SizeJobs(ws: Entries<WpSize>, dir: string): (r: seq<Job>)
    ensures |r| == |ws|
    decreases |ws|
  {
    if ws == [] then []
    else
      var n := |ws| - 1;
      SizeJobs(ws[..n], dir) + [Job(ws[n].0, TrailingSlashIt(dir) + ws[n].1.file)]
  }

  /** Size `i`'s job converts that size's file, which sits in the upload's directory. */
  lemma {:induction false} SizeJobsAt(ws: Entries<WpSize>, dir: string, i: nat)
    requires i < |ws|
    ensures SizeJobs(ws, dir)[i] == Job(ws[i].0, TrailingSlashIt(dir) + ws[i].1.file)
    decreases |ws|
  {
    var n := |ws| - 1;
    if i < n {
      SizeJobsAt(ws[..n], dir, i);
    }
  }

  /**
   * The jobs of `convert_image_formats`, in order: the original from the attached
   * file, then every WordPress size from its file in the same directory.
   */
  function Jobs(m: WpMetadata, filePath: string): (r: seq<Job>)
    ensures |r| == 1 + |WpSizes(m)|
  {
    [Job("original", filePath)] + SizeJobs(WpSizes(m), Dirname(filePath))
  }

  /** Job `i` of `convert_image_formats`: the original first, then WordPress size `i - 1`. */
  lemma JobAt(m: WpMetadata, filePath: string, i: nat)
    requires i < |Jobs(m, filePath)|
    ensures Jobs(m, filePath)[i]
         == if i == 0 then Job("original", filePath)
            else Job(WpSizes(m)[i - 1].0, TrailingSlashIt(Dirname(filePath)) + WpSizes(m)[i - 1].1.file)
  {
    if i > 0 {
      SizeJobsAt(WpSizes(m), Dirname(filePath), i - 1);
    }
  }

  /** The codec's outcome for one job of one strategy. */
  function JobOutcome(j: Job, dir: string, s: Strategy, base: int, codec: Codec): CodecOutcome {
    codec(j.source, TargetPath(dir, j.source, s.targetFormat), s.targetMime, QualityForFormat(s.targetFormat, base))
  }

  /** The `add_format_variation` call a successful job makes. */
  function JobWrite(j: Job, dir: string, s: Strategy, fileSize: int): Write {
    var target := TargetPath(dir, j.source, s.targetFormat);
    Write(j.size, s.targetFormat, FormatInput(Some(Basename(target)), Some(s.targetMime), Some(fileSize)))
  }

  /** The catalog writes of one strategy: one per job the codec saved, in job order. */
  function StrategyWrites(jobs: seq<Job>, dir: string, s: Strategy, base: int, codec: Codec): seq<Write>
    decreases |jobs|
  {
    if jobs == [] then []
    else
      var n := |jobs| - 1;
      var out := JobOutcome(jobs[n], dir, s, base, codec);
      StrategyWrites(jobs[..n], dir, s, base, codec) + (if out.Saved? then [JobWrite(jobs[n], dir, s, out.fileSize)] else [])
  }

  /** The catalog writes of a whole upload: every strategy's, in strategy order. */
  function UploadWrites(jobs: seq<Job>, dir: string, strategies: seq<Strategy>, base: int, codec: Codec): seq<Write>
    decreases |strategies|
  {
    if strategies == [] then []
    else
      var n := |strategies| - 1;
      UploadWrites(jobs, dir, strategies[..n], base, codec) + StrategyWrites(jobs, dir, strategies[n], base, codec)
  }

  /**
   * The size info passed by reference after one job: annotated when the editor saved
   * the file and the size is not named `original`.
   */
  function InfoAfterJob(j: Job, info: Option<WpSize>, dir: string, s: Strategy, base: int, codec: Codec): Option<WpSize> {
    var out := JobOutcome(j, dir, s, base, codec);
    if out.Saved? && j.size != "original" && info.Some? then
      Some(SizeAnnotated(info.value, s.targetFormat, TargetPath(dir, j.source, s.targetFormat), out.fileSize))
    else info
  }

  /** The catalog after one job: its write added when the editor saved the file. */
  function TableAfterJob(t: map<int, Record>, wpMeta: map<int, WpMetadata>, id: int, j: Job, dir: string,
                         s: Strategy, base: int, codec: Codec): map<int, Record> {
    var out := JobOutcome(j, dir, s, base, codec);
    if out.Saved? then AddToTable(t, wpMeta, id, j.size, s.targetFormat, JobWrite(j, dir, s, out.fileSize).data) else t
  }

  /** A WordPress size after one strategy. */
  function AnnotateSize(name: string, info: WpSize, dir: string, s: Strategy, base: int, codec: Codec): WpSize {
    InfoAfterJob(Job(name, TrailingSlashIt(dir) + info.file), Some(info), dir, s, base, codec).value
  }

  /** The body of the sizes loop for one strategy, as a function of (size name, size info). */
  function Annotator(dir: string, s: Strategy, base: int, codec: Codec): (string, WpSize) -> WpSize {
    (name, info) => AnnotateSize(name, info, dir, s, base, codec)
  }

  /** The metadata `convert_image_formats` returns: only the sizes' annotations change. */
  function AnnotateSizes(m: WpMetadata, dir: string, s: Strategy, base: int, codec: Codec): WpMetadata {
    if m.sizes.None? then m else m.(sizes := Some(MapValues(m.sizes.value, Annotator(dir, s, base, codec))))
  }

  /** A strategy only adds annotations to a size: its file, width and height stay. */
  lemma AnnotateSizeKeeps(name: string, info: WpSize, dir: string, s: Strategy, base: int, codec: Codec)
    ensures var r := AnnotateSize(name, info, dir, s, base, codec);
      r.file == info.file && r.width == info.width && r.height == info.height
  {
  }

  /** Two size lists with the same names and files, position by position. */
  predicate SameFiles(a: Entries<WpSize>, b: Entries<WpSize>) {
    |a| == |b| && forall k :: 0 <= k < |a| ==> a[k].0 == b[k].0 && a[k].1.file == b[k].1.file
  }

  /** Appending one pair with the same name and file to each list keeps `SameFiles`. */
  lemma SameFilesSnoc(a: Entries<WpSize>, b: Entries<WpSize>, x: (string, WpSize), y: (string, WpSize))
    requires SameFiles(a, b) && x.0 == y.0 && x.1.file == y.1.file
    ensures SameFiles(a + [x], b + [y])
  {
  }

  /** A strategy keeps the order, the names and the files of the sizes. */
  lemma AnnotateListKeeps(ws: Entries<WpSize>, dir: string, s: Strategy, base: int, codec: Codec)
    ensures SameFiles(MapValues(ws, Annotator(dir, s, base, codec)), ws)
  {
    MapValuesAt(ws, Annotator(dir, s, base, codec));
    forall k | 0 <= k < |ws| {
      AnnotateSizeKeeps(ws[k].0, ws[k].1, dir, s, base, codec);
    }
  }

  /** Size lists with the same names and files give the same jobs. */
  lemma {:induction false} SizeJobsSameFiles(a: Entries<WpSize>, b: Entries<WpSize>, dir: string)
    requires SameFiles(a, b)
    ensures SizeJobs(a, dir) == SizeJobs(b, dir)
    decreases |a|
  {
    if a != [] {
      var n := |a| - 1;
      assert SameFiles(a[..n], b[..n]);
      SizeJobsSameFiles(a[..n], b[..n], dir);
    }
  }

  /** The jobs of a later strategy are those of the first: annotating sizes changes no name or file. */
  lemma JobsAfterAnnotation(m: WpMetadata, filePath: string, s: Strategy, base: int, codec: Codec)
    ensures Jobs(AnnotateSizes(m, Dirname(filePath), s, base, codec), filePath) == Jobs(m, filePath)
  {
    if m.sizes.Some? {
      AnnotateListKeeps(m.sizes.value, Dirname(filePath), s, base, codec);
      SizeJobsSameFiles(MapValues(m.sizes.value, Annotator(Dirname(filePath), s, base, codec)), m.sizes.value, Dirname(filePath));
    }
  }

  /**
   * `convert_image_formats` returns the sizes in their order, with their names, each
   * one annotated by its own job.
   */
  lemma AnnotateSizesAt(m: WpMetadata, dir: string, s: Strategy, base: int, codec: Codec, k: nat)
    requires k < |WpSizes(m)|
    ensures var r := WpSizes(AnnotateSizes(m, dir, s, base, codec));
      var ws := WpSizes(m);
      |r| == |ws| && r[k] == (ws[k].0, AnnotateSize(ws[k].0, ws[k].1, dir, s, base, codec))
  {
    MapValuesAt(WpSizes(m), Annotator(dir, s, base, codec));
  }

  /**
   * What one strategy writes into a WordPress size: when the editor saved the size's
   * file, `trust_optimize_converted[<format>]` describes the converted file (its
   * name, mime type, file size and the size's width and height) and every other
   * annotation stays; when it did not, the size is unchanged.  A size named
   * `original` is never annotated.
   */
  lemma SizeAnnotation(name: string, info: WpSize, dir: string, s: Strategy, base: int, codec: Codec)
    ensures var source := TrailingSlashIt(dir) + info.file;
      var out := JobOutcome(Job(name, source), dir, s, base, codec);
      var r := AnnotateSize(name, info, dir, s, base, codec);
      if out.Saved? && name != "original" then
        && Get(r.converted, s.targetFormat)
           == Some(Annotation(Basename(TargetPath(dir, source, s.targetFormat)), "image/" + s.targetFormat, out.fileSize, Some(info.width), Some(info.height)))
        && (forall f :: f != s.targetFormat ==> Get(r.converted, f) == Get(info.converted, f))
        && r.file == info.file && r.width == info.width && r.height == info.height
      else r == info
  {
  }

  /** The metadata `handle_image_upload` returns: `AnnotateSizes` for every strategy in turn. */
  function AnnotateAll(m: WpMetadata, dir: string, strategies: seq<Strategy>, base: int, codec: Codec): WpMetadata
    decreases |strategies|
  {
    if strategies == [] then m
    else
      var n := |strategies| - 1;
      AnnotateSizes(AnnotateAll(m, dir, strategies[..n], base, codec), dir, strategies[n], base, codec)
  }

  /** One more job of a strategy adds its write when the editor saved the file. */
  lemma StrategyWritesStep(jobs: seq<Job>, dir: string, s: Strategy, base: int, codec: Codec, i: nat)
    requires i < |jobs|
    ensures var out := JobOutcome(jobs[i], dir, s, base, codec);
      StrategyWrites(jobs[..i + 1], dir, s, base, codec)
      == StrategyWrites(jobs[..i], dir, s, base, codec) + (if out.Saved? then [JobWrite(jobs[i], dir, s, out.fileSize)] else [])
  {
    assert jobs[..i + 1][..i] == jobs[..i];
  }

  /**
   * One more job of a strategy whose file the editor saved: the catalog after it is
   * the catalog after the jobs before it, plus its write.
   */
  lemma StrategyStepSaved(t0: map<int, Record>, wpMeta: map<int, WpMetadata>, id: int, jobs: seq<Job>, dir: string,
                          s: Strategy, base: int, codec: Codec, i: nat)
    requires i < |jobs| && JobOutcome(jobs[i], dir, s, base, codec).Saved?
    ensures AddAll(t0, wpMeta, id, StrategyWrites(jobs[..i + 1], dir, s, base, codec))
         == AddToTable(AddAll(t0, wpMeta, id, StrategyWrites(jobs[..i], dir, s, base, codec)), wpMeta, id, jobs[i].size, s.targetFormat,
                       JobWrite(jobs[i], dir, s, JobOutcome(jobs[i], dir, s, base, codec).fileSize).data)
  {
    StrategyWritesStep(jobs, dir, s, base, codec, i);
    AddAllSnoc(t0, wpMeta, id, StrategyWrites(jobs[..i], dir, s, base, codec), JobWrite(jobs[i], dir, s, JobOutcome(jobs[i], dir, s, base, codec).fileSize));
  }

  /** One more job of a strategy whose file the editor did not save leaves the catalog alone. */
  lemma StrategyStepFailed(jobs: seq<Job>, dir: string, s: Strategy, base: int, codec: Codec, i: nat)
    requires i < |jobs| && !JobOutcome(jobs[i], dir, s, base, codec).Saved?
    ensures StrategyWrites(jobs[..i + 1], dir, s, base, codec) == StrategyWrites(jobs[..i], dir, s, base, codec)
  {
    StrategyWritesStep(jobs, dir, s, base, codec, i);
    assert StrategyWrites(jobs[..i], dir, s, base, codec) + [] == StrategyWrites(jobs[..i], dir, s, base, codec);
  }

  /** One more job of a strategy: the catalog after it is the catalog after the jobs before it, then that job. */
  lemma StrategyStep(t0: map<int, Record>, wpMeta: map<int, WpMetadata>, id: int, jobs: seq<Job>, dir: string,
                     s: Strategy, base: int, codec: Codec, i: nat)
    requires i < |jobs|
    ensures AddAll(t0, wpMeta, id, StrategyWrites(jobs[..i + 1], dir, s, base, codec))
         == TableAfterJob(AddAll(t0, wpMeta, id, StrategyWrites(jobs[..i], dir, s, base, codec)), wpMeta, id, jobs[i], dir, s, base, codec)
  {
    if JobOutcome(jobs[i], dir, s, base, codec).Saved? {
      StrategyStepSaved(t0, wpMeta, id, jobs, dir, s, base, codec, i);
    } else {
      StrategyStepFailed(jobs, dir, s, base, codec, i);
    }
  }

  /**
   * `handle_image_upload` changes only the `sizes` of the metadata: in particular the
   * `original_<format>` annotations `update_wp_metadata` writes go to a copy of the
   * metadata and never reach the array returned to WordPress.
   */
  lemma {:induction false} UploadKeepsTopLevel(m: WpMetadata, dir: string, strategies: seq<Strategy>, base: int, codec: Codec)
    ensures var r := AnnotateAll(m, dir, strategies, base, codec);
      && r.converted == m.converted && r.width == m.width && r.height == m.height
      && r.file == m.file && r.filesize == m.filesize && r.otherKeys == m.otherKeys
      && (r.sizes.Some? <==> m.sizes.Some?)
    decreases |strategies|
  {
    if strategies != [] {
      UploadKeepsTopLevel(m, dir, strategies[..|strategies| - 1], base, codec);
    }
  }

  /** One more strategy of an upload: its writes follow those of the strategies before it. */
  lemma UploadWritesStep(jobs: seq<Job>, dir: string, strategies: seq<Strategy>, base: int, codec: Codec, k: nat)
    requires k < |strategies|
    ensures UploadWrites(jobs, dir, strategies[..k + 1], base, codec)
         == UploadWrites(jobs, dir, strategies[..k], base, codec) + StrategyWrites(jobs, dir, strategies[k], base, codec)
  {
    assert strategies[..k + 1][..k] == strategies[..k];
  }

  /** One more strategy of an upload: the metadata gets its annotations after those before it. */
  lemma AnnotateAllStep(m: WpMetadata, dir: string, strategies: seq<Strategy>, base: int, codec: Codec, k: nat)
    requires k < |strategies|
    ensures AnnotateAll(m, dir, strategies[..k + 1], base, codec)
         == AnnotateSizes(AnnotateAll(m, dir, strategies[..k], base, codec), dir, strategies[k], base, codec)
  {
    assert strategies[..k + 1][..k] == strategies[..k];
  }

  /** The sizes the jobs convert. */
  function JobSizes(jobs: seq<Job>): set<string> {
    set j | j in jobs :: j.size
  }

  /** No two jobs convert the same size. */
  predicate DistinctSizes(jobs: seq<Job>) {
    forall a, b :: 0 <= a < b < |jobs| ==> jobs[a].size != jobs[b].size
  }

  /** No two strategies target the same format. */
  predicate DistinctFormats(strategies: seq<Strategy>) {
    forall a, b :: 0 <= a < b < |strategies| ==> strategies[a].targetFormat != strategies[b].targetFormat
  }

  /** `get_conversion_strategies` never plans one format twice. */
  lemma StrategiesDistinct(mime: string, avifEnabled: bool, webpEnabled: bool)
    ensures DistinctFormats(ConversionStrategies(mime, avifEnabled, webpEnabled))
  {
  }

  /** Every write of a strategy is complete format data for the size of one of its jobs. */
  lemma {:induction false} StrategyWritesFrom(jobs: seq<Job>, dir: string, s: Strategy, base: int, codec: Codec)
    ensures forall w :: w in StrategyWrites(jobs, dir, s, base, codec) ==>
      Complete(w.data) && w.size in JobSizes(jobs) && w.format == s.targetFormat
    decreases |jobs|
  {
    if jobs != [] {
      var n := |jobs| - 1;
      StrategyWritesFrom(jobs[..n], dir, s, base, codec);
      assert JobSizes(jobs[..n]) <= JobSizes(jobs) by {
        forall x | x in JobSizes(jobs[..n]) ensures x in JobSizes(jobs) {
          var j :| j in jobs[..n] && j.size == x;
          assert j in jobs;
        }
      }
      assert jobs[n] in jobs;
    }
  }

  /** Every write of an upload is complete format data for the size of one of its jobs. */
  lemma {:induction false} UploadWritesFrom(jobs: seq<Job>, dir: string, strategies: seq<Strategy>, base: int, codec: Codec)
    ensures forall w :: w in UploadWrites(jobs, dir, strategies, base, codec) ==> Complete(w.data) && w.size in JobSizes(jobs)
    decreases |strategies|
  {
    if strategies != [] {
      var n := |strategies| - 1;
      UploadWritesFrom(jobs, dir, strategies[..n], base, codec);
      StrategyWritesFrom(jobs, dir, strategies[n], base, codec);
    }
  }

  /** A strategy writes nothing to a pair of another format, or of a size none of its jobs converts. */
  lemma {:induction false} StrategyWritesAbsent(jobs: seq<Job>, dir: string, s: Strategy, base: int, codec: Codec, size: string, format: string)
    requires format != s.targetFormat || size !in JobSizes(jobs)
    ensures LastWrite(StrategyWrites(jobs, dir, s, base, codec), size, format).None?
  {
    StrategyWritesFrom(jobs, dir, s, base, codec);
    LastWriteNone(StrategyWrites(jobs, dir, s, base, codec), size, format);
  }

  /** The entry a successful job writes: the converted file's name, the target mime and the reported size. */
  lemma JobWriteEntry(j: Job, dir: string, s: Strategy, fileSize: int)
    ensures var w := JobWrite(j, dir, s, fileSize);
      && w.size == j.size && w.format == s.targetFormat && Complete(w.data)
      && NewEntry(w.data) == FormatEntry(Basename(TargetPath(dir, j.source, s.targetFormat)), s.targetMime, fileSize)
  {
  }

  /** The last job of a strategy decides the last write to its own size in the strategy's format. */
  lemma StrategyWritesLastJob(jobs: seq<Job>, dir: string, s: Strategy, base: int, codec: Codec, size: string)
    requires jobs != []
    ensures var n := |jobs| - 1;
      var out := JobOutcome(jobs[n], dir, s, base, codec);
      var before := LastWrite(StrategyWrites(jobs[..n], dir, s, base, codec), size, s.targetFormat);
      LastWrite(StrategyWrites(jobs, dir, s, base, codec), size, s.targetFormat)
      == if out.Saved? && size == jobs[n].size
         then Some(FormatEntry(Basename(TargetPath(dir, jobs[n].source, s.targetFormat)), s.targetMime, out.fileSize))
         else before
  {
    var n := |jobs| - 1;
    var out := JobOutcome(jobs[n], dir, s, base, codec);
    var prefix := StrategyWrites(jobs[..n], dir, s, base, codec);
    if out.Saved? {
      var w := JobWrite(jobs[n], dir, s, out.fileSize);
      JobWriteEntry(jobs[n], dir, s, out.fileSize);
      LastWriteSnoc(prefix, w, size, s.targetFormat);
    } else {
      assert prefix + [] == prefix;
    }
  }

  /**
   * For its own format, the last write a strategy makes to the size of job `i` is that
   * job's: the converted file, its mime type and the size the editor reported when the
   * editor saved it, and nothing otherwise.
   */
  lemma {:induction false} StrategyWritesLast(jobs: seq<Job>, dir: string, s: Strategy, base: int, codec: Codec, i: nat)
    requires i < |jobs| && DistinctSizes(jobs)
    ensures var out := JobOutcome(jobs[i], dir, s, base, codec);
      LastWrite(StrategyWrites(jobs, dir, s, base, codec), jobs[i].size, s.targetFormat)
      == if out.Saved? then Some(FormatEntry(Basename(TargetPath(dir, jobs[i].source, s.targetFormat)), s.targetMime, out.fileSize)) else None
    decreases |jobs|
  {
    var n := |jobs| - 1;
    var prefix := jobs[..n];
    StrategyWritesLastJob(jobs, dir, s, base, codec, jobs[i].size);
    if i == n {
      forall a | 0 <= a < n ensures prefix[a].size != jobs[n].size {
        assert prefix[a] == jobs[a];
      }
      StrategyWritesAbsent(prefix, dir, s, base, codec, jobs[i].size, s.targetFormat);
    } else {
      assert prefix[i] == jobs[i];
      assert DistinctSizes(prefix);
      StrategyWritesLast(prefix, dir, s, base, codec, i);
    }
  }

  /**
   * Over a whole upload, the last write to the pair (size of job `i`, format of
   * strategy `k`) is the one strategy `k` makes: no other strategy targets that format.
   */
  lemma {:induction false} UploadWritesLast(jobs: seq<Job>, dir: string, strategies: seq<Strategy>, base: int, codec: Codec, i: nat, k: nat)
    requires i < |jobs| && k < |strategies| && DistinctSizes(jobs) && DistinctFormats(strategies)
    ensures LastWrite(UploadWrites(jobs, dir, strategies, base, codec), jobs[i].size, strategies[k].targetFormat)
         == LastWrite(StrategyWrites(jobs, dir, strategies[k], base, codec), jobs[i].size, strategies[k].targetFormat)
    decreases |strategies|
  {
    var n := |strategies| - 1;
    var format := strategies[k].targetFormat;
    var earlier := strategies[..n];
    LastWriteAppend(UploadWrites(jobs, dir, earlier, base, codec), StrategyWrites(jobs, dir, strategies[n], base, codec), jobs[i].size, format);
    if k == n {
      forall st | st in earlier ensures st.targetFormat != format {
        var a :| 0 <= a < n && earlier[a] == st;
        assert strategies[a] == st;
      }
      UploadWritesFormats(jobs, dir, earlier, base, codec, jobs[i].size, format);
    } else {
      StrategyWritesAbsent(jobs, dir, strategies[n], base, codec, jobs[i].size, format);
      assert earlier[k] == strategies[k];
      assert DistinctFormats(earlier);
      UploadWritesLast(jobs, dir, earlier, base, codec, i, k);
    }
  }

  /** An upload writes nothing to a format none of its strategies targets. */
  lemma {:induction false} UploadWritesFormats(jobs: seq<Job>, dir: string, strategies: seq<Strategy>, base: int, codec: Codec, size: string, format: string)
    requires forall st :: st in strategies ==> st.targetFormat != format
    ensures LastWrite(UploadWrites(jobs, dir, strategies, base, codec), size, format).None?
    decreases |strategies|
  {
    if strategies != [] {
      var n := |strategies| - 1;
      assert strategies[n] in strategies;
      UploadWritesFormats(jobs, dir, strategies[..n], base, codec, size, format);
      StrategyWritesAbsent(jobs, dir, strategies[n], base, codec, size, format);
      LastWriteAppend(UploadWrites(jobs, dir, strategies[..n], base, codec), StrategyWrites(jobs, dir, strategies[n], base, codec), size, format);
    }
  }

  /** The jobs convert distinct sizes when WordPress's sizes are a PHP array without an `original` key. */
  lemma JobsDistinct(m: WpMetadata, filePath: string)
    requires UniqueKeys(WpSizes(m)) && "original" !in Keys(WpSizes(m))
    ensures DistinctSizes(Jobs(m, filePath))
  {
    var jobs := Jobs(m, filePath);
    var ws := WpSizes(m);
    forall a, b | 0 <= a < b < |jobs| ensures jobs[a].size != jobs[b].size {
      JobAt(m, filePath, a);
      JobAt(m, filePath, b);
      if a == 0 {
        assert Keys(ws)[b - 1] == ws[b - 1].0;
      }
    }
  }

  /** The size job `a` converts is a size of the base record. */
  lemma JobSizeInBase(m: WpMetadata, filePath: string, a: nat)
    requires !IsEmpty(m) && a < |Jobs(m, filePath)|
    ensures Jobs(m, filePath)[a].size in Keys(BaseMetadata(Some(m)).sizes)
  {
    hide Jobs, AddSizes;
    var ws := WpSizes(m);
    var acc := [("original", OriginalSize(m))];
    var size := Jobs(m, filePath)[a].size;
    JobAt(m, filePath, a);
    assert BaseMetadata(Some(m)).sizes == AddSizes(acc, ws);
    AddSizesKeys(acc, ws, size);
    if a == 0 {
      assert Keys(acc)[0] == "original";
    } else {
      assert Keys(ws)[a - 1] == ws[a - 1].0;
    }
  }

  /** Every size a job converts is a size of the base record. */
  lemma JobSizesInBase(m: WpMetadata, filePath: string)
    requires !IsEmpty(m)
    ensures forall x :: x in JobSizes(Jobs(m, filePath)) ==> x in Keys(BaseMetadata(Some(m)).sizes)
  {
    var jobs := Jobs(m, filePath);
    forall x | x in JobSizes(jobs) ensures x in Keys(BaseMetadata(Some(m)).sizes) {
      var j :| j in jobs && j.size == x;
      var a :| 0 <= a < |jobs| && jobs[a] == j;
      JobSizeInBase(m, filePath, a);
    }
  }

  /**
   * The catalog row after `handle_image_upload` for a file with metadata: for every
   * job and strategy, the (size, format) entry holds the converted file when the
   * editor saved it, and otherwise is the base record's entry; every size of the base
   * record is still there.
   */
  lemma UploadCatalogEntry(t: map<int, Record>, wpMeta: map<int, WpMetadata>, id: int, m: WpMetadata, filePath: string,
                           strategies: seq<Strategy>, base: int, codec: Codec, i: nat, k: nat)
    requires !IsEmpty(m) && UniqueKeys(WpSizes(m)) && "original" !in Keys(WpSizes(m))
    requires DistinctFormats(strategies)
    requires i < |Jobs(m, filePath)| && k < |strategies|
    ensures var jobs := Jobs(m, filePath);
      var s := strategies[k];
      var final := AddAll(t[id := BaseMetadata(Some(m))], wpMeta, id, UploadWrites(jobs, Dirname(filePath), strategies, base, codec));
      var out := JobOutcome(jobs[i], Dirname(filePath), s, base, codec);
      && id in final
      && (forall x :: x in Keys(BaseMetadata(Some(m)).sizes) ==> x in Keys(final[id].sizes))
      && FormatOf(final[id], jobs[i].size, s.targetFormat)
         == if out.Saved? then Some(FormatEntry(Basename(TargetPath(Dirname(filePath), jobs[i].source, s.targetFormat)), s.targetMime, out.fileSize))
            else FormatOf(BaseMetadata(Some(m)), jobs[i].size, s.targetFormat)
  {
    var jobs := Jobs(m, filePath);
    var dir := Dirname(filePath);
    var t1 := t[id := BaseMetadata(Some(m))];
    var writes := UploadWrites(jobs, dir, strategies, base, codec);
    JobsDistinct(m, filePath);
    JobSizesInBase(m, filePath);
    UploadWritesFrom(jobs, dir, strategies, base, codec);
    AddAllLookup(t1, wpMeta, id, writes, jobs[i].size, strategies[k].targetFormat);
    UploadWritesLast(jobs, dir, strategies, base, codec, i, k);
    StrategyWritesLast(jobs, dir, strategies[k], base, codec, i);
  }

  /** `! $file_path`: no attached file, or a falsy path. */
  predicate NoFile(attachedFile: Option<string>) {
    attachedFile.None? || attachedFile.value == "" || attachedFile.value == "0"
  }

  /**
   * The converter: the catalog it records into and the settings it reads.  Only the
   * catalog changes.
   */
  class ImageConverter {
    const model: ImageModel
    const settings: Admin.Settings

    constructor (model: ImageModel, settings: Admin.Settings)
      ensures this.model == model && this.settings == settings
    {
      this.model := model;
      this.settings := settings;
    }

    predicate Valid()
      reads model
    {
      model.Valid()
    }

    /** `(int) $this->settings->get('image_quality', 100)`. */
    function BaseQuality(): int
      reads settings
    {
      Admin.ToInt(settings.Get("image_quality", Admin.Int(100)))
    }

    /** `is_avif_conversion_enabled`: `(bool) get('convert_to_avif', 1)`. */
    predicate AvifEnabled()
      reads settings
    {
      Admin.Truthy(settings.Get("convert_to_avif", Admin.Int(1)))
    }

    /** `is_webp_conversion_enabled`: `(bool) get('convert_to_webp', 1)`. */
    predicate WebpEnabled()
      reads settings
    {
      Admin.Truthy(settings.Get("convert_to_webp", Admin.Int(1)))
    }

    /** `get_conversion_strategies($mime_type)` under the current settings. */
    function Strategies(mime: string): seq<Strategy>
      reads settings
    {
      ConversionStrategies(mime, AvifEnabled(), WebpEnabled())
    }

    /**
     * `convert_single_image`: derives the target path, runs the editor and, when it
     * saved the file, records the variant in the catalog and annotates the size info
     * passed by reference; the metadata is a copy, so an annotation of `original` is
     * dropped.  Returns whether the editor succeeded, whatever the catalog did.
     */
    method ConvertSingleImage(metadata: WpMetadata, id: int, source: string, destDir: string, sizeName: string,
                              s: Strategy, sizeInfo: Option<WpSize>, codec: Codec)
      returns (ok: bool, newSizeInfo: Option<WpSize>)
      requires Valid()
      modifies model
      ensures Valid()
      ensures ok <==> JobOutcome(Job(sizeName, source), destDir, s, old(BaseQuality()), codec).Saved?
      ensures model.table == TableAfterJob(old(model.table), model.wpMeta, id, Job(sizeName, source), destDir, s, old(BaseQuality()), codec)
      ensures newSizeInfo == InfoAfterJob(Job(sizeName, source), sizeInfo, destDir, s, old(BaseQuality()), codec)
    {
      var originalFilename := Basename(source);
      var targetPath := TrailingSlashIt(destDir) + Filename(originalFilename) + "." + s.targetFormat;
      var quality := QualityForFormat(s.targetFormat, BaseQuality());
      var outcome := codec(source, targetPath, s.targetMime, quality);
      if !outcome.Saved? {
        return false, sizeInfo;
      }
      var data := FormatInput(Some(Basename(targetPath)), Some(s.targetMime), Some(outcome.fileSize));
      var recorded := model.AddFormatVariation(id, sizeName, s.targetFormat, data);
      var localMetadata;
      localMetadata, newSizeInfo := UpdateWpMetadata(metadata, sizeName, s.targetFormat, targetPath, outcome.fileSize, sizeInfo);
      ok := true;
    }

    /**
     * `convert_single_image` as the `i`-th job of a strategy: the catalog goes from
     * the writes of the jobs before it to the writes of the jobs up to it.
     */
    method ConvertJob(metadata: WpMetadata, id: int, imageDir: string, s: Strategy, codec: Codec,
                      name: string, source: string, info: Option<WpSize>,
                      ghost jobs: seq<Job>, ghost t0: map<int, Record>, ghost base: int, ghost i: nat)
      returns (updated: Option<WpSize>)
      requires Valid() && BaseQuality() == base
      requires i < |jobs| && jobs[i] == Job(name, source)
      requires model.table == AddAll(t0, model.wpMeta, id, StrategyWrites(jobs[..i], imageDir, s, base, codec))
      modifies model
      ensures Valid()
      ensures updated == InfoAfterJob(Job(name, source), info, imageDir, s, base, codec)
      ensures model.table == AddAll(t0, model.wpMeta, id, StrategyWrites(jobs[..i + 1], imageDir, s, base, codec))
    {
      var converted;
      converted, updated := ConvertSingleImage(metadata, id, source, imageDir, name, s, info, codec);
      StrategyStep(t0, model.wpMeta, id, jobs, imageDir, s, base, codec, i);
    }

    /**
     * `convert_image_formats`: converts the original, then every WordPress size in
     * order through a reference to its size info, and returns the metadata with the
     * sizes' annotations; the catalog receives one write per file the editor saved.
     */
    method ConvertImageFormats(metadata: WpMetadata, id: int, filePath: string, s: Strategy, codec: Codec)
      returns (result: WpMetadata)
      requires Valid()
      modifies model
      ensures Valid()
      ensures result == AnnotateSizes(metadata, Dirname(filePath), s, old(BaseQuality()), codec)
      ensures model.table == AddAll(old(model.table), model.wpMeta, id,
                                    StrategyWrites(Jobs(metadata, filePath), Dirname(filePath), s, old(BaseQuality()), codec))
    {
      var imageDir := Dirname(filePath);
      ghost var base := BaseQuality();
      ghost var jobs := Jobs(metadata, filePath);
      ghost var t0 := model.table;
      assert jobs[..0] == [];
      JobAt(metadata, filePath, 0);
      var lost := ConvertJob(metadata, id, imageDir, s, codec, "original", filePath, None, jobs, t0, base, 0);
      result := metadata;
      if metadata.sizes.Some? {
        var sizes := ConvertSizes(metadata, metadata.sizes.value, id, imageDir, s, codec, jobs, t0, base);
        result := metadata.(sizes := Some(sizes));
      } else {
        assert jobs[..1] == jobs;
      }
    }

    /**
     * The `foreach ($metadata['sizes'] as $size_name => &$size_info)` loop of
     * `convert_image_formats`: every WordPress size `ws` in order, after the original,
     * each annotated in place through the reference.
     */
    method ConvertSizes(metadata: WpMetadata, ws: Entries<WpSize>, id: int, imageDir: string, s: Strategy, codec: Codec,
                        ghost jobs: seq<Job>, ghost t0: map<int, Record>, ghost base: int)
      returns (sizes: Entries<WpSize>)
      requires Valid() && BaseQuality() == base
      requires |jobs| == |ws| + 1
      requires jobs[1..] == SizeJobs(ws, imageDir)
      requires model.table == AddAll(t0, model.wpMeta, id, StrategyWrites(jobs[..1], imageDir, s, base, codec))
      modifies model
      ensures Valid()
      ensures sizes == MapValues(ws, Annotator(imageDir, s, base, codec))
      ensures model.table == AddAll(t0, model.wpMeta, id, StrategyWrites(jobs, imageDir, s, base, codec))
    {
      ghost var f := Annotator(imageDir, s, base, codec);
      MapValuesBounds(ws, f);
      sizes := ws;
      var i := 0;
      while i < |sizes|
        invariant 0 <= i <= |sizes| == |ws|
        invariant Valid() && BaseQuality() == base
        invariant sizes == MapValues(ws[..i], f) + ws[i..]
        invariant model.table == AddAll(t0, model.wpMeta, id, StrategyWrites(jobs[..i + 1], imageDir, s, base, codec))
      {
        sizes := ConvertSizeAt(metadata, ws, sizes, id, imageDir, s, codec, f, jobs, t0, base, i);
        i := i + 1;
      }
      assert jobs[..|jobs|] == jobs;
    }

    /**
     * One pass of the sizes loop: converts size `i` from its file and assigns its
     * annotated info through the reference.
     */
    method ConvertSizeAt(metadata: WpMetadata, ws: Entries<WpSize>, sizes: Entries<WpSize>, id: int, imageDir: string,
                         s: Strategy, codec: Codec, ghost f: (string, WpSize) -> WpSize,
                         ghost jobs: seq<Job>, ghost t0: map<int, Record>, ghost base: int, i: nat)
      returns (next: Entries<WpSize>)
      requires Valid() && BaseQuality() == base && f == Annotator(imageDir, s, base, codec)
      requires i < |ws| && |jobs| == |ws| + 1
      requires jobs[1..] == SizeJobs(ws, imageDir)
      requires sizes == MapValues(ws[..i], f) + ws[i..]
      requires model.table == AddAll(t0, model.wpMeta, id, StrategyWrites(jobs[..i + 1], imageDir, s, base, codec))
      modifies model
      ensures Valid()
      ensures next == MapValues(ws[..i + 1], f) + ws[i + 1..] && |next| == |ws|
      ensures model.table == AddAll(t0, model.wpMeta, id, StrategyWrites(jobs[..i + 2], imageDir, s, base, codec))
    {
      MapValuesSplice(ws, f, i);
      assert jobs[i + 1] == jobs[1..][i];
      SizeJobsAt(ws, imageDir, i);
      var name := sizes[i].0;
      var info := sizes[i].1;
      var imagePath := TrailingSlashIt(imageDir) + info.file;
      var updated := ConvertJob(metadata.(sizes := Some(sizes)), id, imageDir, s, codec, name, imagePath, Some(info), jobs, t0, base, i + 1);
      assert updated.value == f(name, info);
      next := sizes[i := (name, updated.value)];
      MapValuesLength(ws[..i + 1], f);
    }

    /**
     * `handle_image_upload`: without an attached file the metadata comes back as it
     * is; otherwise the base record built from the metadata is saved (whatever the
     * mime type), and every strategy for the file's mime type converts the original
     * and all sizes in turn, each strategy starting from the metadata the previous one
     * returned.  `fileType` stands for `wp_check_filetype`.
     */
    method HandleImageUpload(metadata: WpMetadata, id: int, attachedFile: Option<string>, fileType: string -> string, codec: Codec)
      returns (result: WpMetadata)
      requires Valid()
      modifies model
      ensures Valid()
      ensures NoFile(attachedFile) ==> result == metadata && model.table == old(model.table)
      ensures !NoFile(attachedFile) ==>
        var path := attachedFile.value;
        var strategies := Strategies(fileType(path));
        && result == AnnotateAll(metadata, Dirname(path), strategies, old(BaseQuality()), codec)
        && model.table == AddAll(old(model.table)[id := BaseMetadata(Some(metadata))], model.wpMeta, id,
                                 UploadWrites(Jobs(metadata, path), Dirname(path), strategies, old(BaseQuality()), codec))
      ensures !NoFile(attachedFile) && Strategies(fileType(attachedFile.value)) == [] ==>
        result == metadata && model.table == old(model.table)[id := BaseMetadata(Some(metadata))]
    {
      if NoFile(attachedFile) {
        return metadata;
      }
      var filePath := attachedFile.value;
      var mimeType := fileType(filePath);
      var baseRecord := ImageModel.CreateBaseMetadata(Some(metadata));
      var rowId := model.Save(id, baseRecord);
      var strategies := Strategies(mimeType);
      ghost var quality := BaseQuality();
      ghost var jobs := Jobs(metadata, filePath);
      ghost var t1 := model.table;
      result := metadata;
      var k := 0;
      assert strategies[..0] == [];
      while k < |strategies|
        invariant 0 <= k <= |strategies|
        invariant Valid() && BaseQuality() == quality
        invariant Jobs(result, filePath) == jobs
        invariant result == AnnotateAll(metadata, Dirname(filePath), strategies[..k], quality, codec)
        invariant model.table == AddAll(t1, model.wpMeta, id, UploadWrites(jobs, Dirname(filePath), strategies[..k], quality, codec))
      {
        AnnotateAllStep(metadata, Dirname(filePath), strategies, quality, codec, k);
        result := ConvertStrategy(result, id, filePath, strategies, codec, jobs, t1, quality, k);
        k := k + 1;
      }
      assert strategies[..|strategies|] == strategies;
    }

    /**
     * One pass of the `foreach ($conversion_strategies as $strategy)` loop: the `k`-th
     * strategy's `convert_image_formats`, appending that strategy's writes.
     */
    method ConvertStrategy(metadata: WpMetadata, id: int, filePath: string, strategies: seq<Strategy>, codec: Codec,
                           ghost jobs: seq<Job>, ghost t1: map<int, Record>, ghost quality: int, k: nat)
      returns (result: WpMetadata)
      requires Valid() && BaseQuality() == quality
      requires k < |strategies| && Jobs(metadata, filePath) == jobs
      requires model.table == AddAll(t1, model.wpMeta, id, UploadWrites(jobs, Dirname(filePath), strategies[..k], quality, codec))
      modifies model
      ensures Valid()
      ensures result == AnnotateSizes(metadata, Dirname(filePath), strategies[k], quality, codec)
      ensures Jobs(result, filePath) == jobs
      ensures model.table == AddAll(t1, model.wpMeta, id, UploadWrites(jobs, Dirname(filePath), strategies[..k + 1], quality, codec))
    {
      var dir := Dirname(filePath);
      JobsAfterAnnotation(metadata, filePath, strategies[k], quality, codec);
      UploadWritesStep(jobs, dir, strategies, quality, codec, k);
      AddAllAppend(t1, model.wpMeta, id, UploadWrites(jobs, dir, strategies[..k], quality, codec),
                   StrategyWrites(jobs, dir, strategies[k], quality, codec));
      result := ConvertImageFormats(metadata, id, filePath, strategies[k], codec);
    }
  }
}
