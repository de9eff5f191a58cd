# Trust Optimize: image variants, conversion and adaptive markup

A Dafny model of the core of the Trust Optimize WordPress plugin. The plugin turns each uploaded
image into several encoded variants, keeps a catalog of the variants that exist, and rewrites the
`<img>` tags of post content so that browsers can pick an adaptive size. The model covers five
parts of the PHP code:

- **The variant catalog** (`Database`, `image_model.dfy`). This models the class
  `TrustOptimize\Database\ImageModel`.
  - The plugin's table maps each attachment id to a record:
    `sizes: size name => {width, height, formats: format => {file, mime_type, file_size}}`.
  - `ImageModel` is a class. Its `table: map<int, Record>` is what `save`, `delete` and
    `add_format_variation` update.
  - WordPress's attachment metadata (`wp_get_attachment_metadata`) is a second map that the class
    only reads.
  - Every PHP array is an ordered list of `(key, value)` pairs (`PhpArray.Entries`). Assigning to
    a key replaces the value in place or appends a new pair, as PHP does.
- **The conversion planner and generator** (`Converter`, `image_converter.dfy`). This models
  `ImageConverter`.
  - `get_conversion_strategies` and `get_quality_for_format` are functions.
  - `convert_single_image`, `convert_image_formats` and `handle_image_upload` are methods of a
    class holding the catalog and the settings.
  - The loops go over the strategies and the sizes. Their effect is proved equal to a run of
    catalog writes (`UploadWrites`) and an annotation of the metadata (`AnnotateAll`). Lemmas then
    show what the catalog holds afterwards.
  - The image editor is an oracle: a function from (source path, target path, mime, quality) to
    "editor error", "save error" or "saved, with this file size".
- **The `<img>` annotator** (`Processor`, `image_processor.dfy`). This models `ImageProcessor`.
  - An element is a class whose attribute list `setAttribute` updates in place.
  - `process_image_element` is a method proved equal to the function `Processed`.
  - `generate_adaptive_srcset` is a loop proved equal to the function `Srcset`.
  - `get_adaptive_url` is a function whose query is shown to read back through `parse_str`.
- **The URL helpers** (`Helper`, `helper.dfy`). These model `is_valid_image_url` and the
  normalisation at the head of `get_attachment_id_from_url`:
  - the regular expression `/-\d+x\d+(?=\.(jpg|jpeg|png|gif)$)/i`;
  - the check that the upload base URL occurs in the URL;
  - the `str_replace` of that base URL.
- **The settings** (`Admin`, `settings.dfy`). This models `TrustOptimize\Admin\Settings`.
  - It is a class over the stored `trust_optimize_options` option, an ordered PHP array
    (`PhpArray.Entries`), so key order is kept as PHP keeps it.
  - Reads use a three-tier fallback.
  - `update`, `reset` and `add_default_settings` overwrite the stored option.

Three support modules model the PHP and WordPress library functions the core relies on, as far as
the core uses them:

- `PhpString`: `basename`, `pathinfo`, `dirname`, `trailingslashit`, `strtolower`, `strpos`,
  `str_replace`, `implode`.
- `PhpUrl`: `parse_url`, `parse_str`, `http_build_query`.
- `PhpArray`: array assignment and lookup.

## Model

| member | source | states |
|---|---|---|
| Database.AddSizesStep | includes/database/models/ImageModel.php:149-164 | each WordPress size is assigned into `$sizes` in the order the loop visits it |
| Database.AddSizesKeys | includes/database/models/ImageModel.php:148-166 | after the sizes loop, the size names are exactly the earlier names plus the WordPress size names |
| Database.AddSizesUnique | includes/database/models/ImageModel.php:148-166 | the sizes loop never duplicates a size name |
| Database.AddSizesGet | includes/database/models/ImageModel.php:148-165 | after the loop, each WordPress size holds exactly the entry built from it, and any other name is as before |
| Database.BaseMetadata | includes/database/models/ImageModel.php:121-124 | a missing or empty metadata array gives exactly `{sizes: {}}` |
| Database.AddSizesEntries | includes/database/models/ImageModel.php:150-164 | every size the loop builds holds at most one format |
| Database.BaseMetadataSizes | includes/database/models/ImageModel.php:121-171 | for non-empty metadata the record is well formed; its sizes are `original` plus exactly the WordPress sizes; `original` has the array's width and height (0 when missing) and its file keyed by extension, with mime `image/`+ext (`jpg` gives `jpeg`); each WordPress size has its width, height and single file |
| Database.ImageModel.CreateBaseMetadata | includes/database/models/ImageModel.php:121-171 | the `foreach` loop over the WordPress sizes computes `BaseMetadata` |
| Database.TargetSizeUnique | includes/database/models/ImageModel.php:203-224 | the size entry that `add_format_variation` writes into has unique format keys |
| Database.AddVariation | includes/database/models/ImageModel.php:182-235 | the definition of `add_format_variation` on values; its properties are stated by the `AddVariation*` lemmas |
| Database.AddVariationOutcome | includes/database/models/ImageModel.php:182-235 | it fails, storing nothing, when `file` or `mime_type` is missing; when there is neither a row nor WordPress metadata; and when the size is unknown to both and is not `original`; on success the (size, format) entry holds `{file, mime_type, file_size ?? 0}` |
| Database.AddVariationFrame | includes/database/models/ImageModel.php:203-231 | a successful call leaves every other size, every other format of that size, and the size's width and height unchanged; the only size name it can add is the one it was given |
| Database.AddVariationLastWriteWins | includes/database/models/ImageModel.php:227-231 | a second call for the same pair overwrites the first: the last write wins |
| Database.AddVariationIdempotent | includes/database/models/ImageModel.php:227-231 | repeating the same call leaves the record as it is, so nothing is duplicated |
| Database.AddVariationWellFormed | includes/database/models/ImageModel.php:182-235 | the call keeps size names and format keys unique |
| Database.PutSizeWellFormed | includes/database/models/ImageModel.php:227-231 | storing a size with unique format keys keeps the record well formed |
| Database.StartingRecordWellFormed | includes/database/models/ImageModel.php:184-196 | the record the call starts from (the stored row, else the base record) is well formed |
| Database.AddAllSnoc | includes/database/models/ImageModel.php:182-235 | one more call at the end of a run of calls is one more `add_format_variation` on the table |
| Database.AddAllAppend | includes/database/models/ImageModel.php:182-235 | two runs of calls, one after the other, equal the run of their concatenation |
| Database.LastWriteAppend | includes/database/models/ImageModel.php:227-231 | the last write to a pair across two runs is the second run's, else the first's |
| Database.LastWriteSnoc | includes/database/models/ImageModel.php:199-231 | a call with complete data becomes the last write to its own pair and changes no other pair's last write |
| Database.LastWriteNone | includes/database/models/ImageModel.php:227-231 | a pair no call touches has no last write |
| Database.AddAllOtherIds | includes/database/models/ImageModel.php:68-92 | calls for one attachment never change another attachment's row |
| Database.AddVariationSucceeds | includes/database/models/ImageModel.php:199-234 | on a stored row, complete data for a known size or for `original` is always stored |
| Database.AddVariationEffect | includes/database/models/ImageModel.php:227-231 | pair by pair, a successful call changes its own (size, format) entry and no other, and drops no size |
| Database.AddAllLookup | includes/database/models/ImageModel.php:182-235 | upsert over a run of calls on an existing row: each (size, format) entry holds the last write to it, and an entry no call touched keeps its old value |
| Database.AddNew | includes/database/models/ImageModel.php:403-406 | the `in_array` guard appends each new key once: the result holds the old list and the keys, with no duplicate |
| Database.AvailableFormats | includes/database/models/ImageModel.php:401-409 | every format of every size appears once: `f` is listed exactly when some size has it |
| Database.HasFormatMeansSomeSize | includes/database/models/ImageModel.php:369-384 | for a well-formed record, some size having a format is the same as a lookup of that format succeeding for some size name |
| Database.FormatKeySpec | includes/database/models/ImageModel.php:339-345 | the legacy format key holds no `_`: it is the key itself when the key has no `_`, else what follows one of its `_` |
| Database.LegacyMetadata | includes/database/models/ImageModel.php:281-284 | the deprecated conversion of a missing or empty metadata array gives `{sizes: {}}` |
| Database.AddLegacySizesPlain | includes/database/models/ImageModel.php:318-354 | for sizes without annotations, the legacy sizes loop and the `create_base_metadata` sizes loop agree |
| Database.AddLegacySizesStep | includes/database/models/ImageModel.php:319-352 | one more size without annotations keeps the two loops in agreement |
| Database.LegacyAgreesWithBase | includes/database/models/ImageModel.php:281-360 | on metadata with no plugin annotations, `convert_from_wp_metadata` equals `create_base_metadata` |
| Database.ImageModel.constructor | includes/database/models/ImageModel.php:33-35 | a new store has an empty table over the given WordPress metadata |
| Database.ImageModel.GetByAttachmentId | includes/database/models/ImageModel.php:43-59 | returns the stored record of the attachment, or null when there is no row |
| Database.ImageModel.Save | includes/database/models/ImageModel.php:68-92 | sets the attachment's record and leaves the other rows; an existing row keeps its row id, a new row gets the next auto-increment id |
| Database.ImageModel.Delete | includes/database/models/ImageModel.php:100-110 | removes exactly the attachment's row and reports success |
| Database.ImageModel.LoadOrCreate | includes/database/models/ImageModel.php:184-196 | the stored record, else the base record built from WordPress metadata, else nothing |
| Database.ImageModel.PlaceEntry | includes/database/models/ImageModel.php:203-231 | the in-place size creation and entry assignment compute the record `AddVariation` describes |
| Database.ImageModel.AddFormatVariation | includes/database/models/ImageModel.php:182-235 | returns true exactly when the upsert succeeds, and the table becomes the table after that upsert |
| Database.ImageModel.DeleteThenQuery | includes/database/models/ImageModel.php:100-110 | after `delete`, the row is null, `get_format` is null, `has_format_variation` is false and `get_available_formats` is empty |
| Database.ImageModel.GetSizeVariations | includes/database/models/ImageModel.php:244-252 | the stored size entry, present exactly when the row and the size exist |
| Database.ImageModel.GetFormat | includes/database/models/ImageModel.php:262-270 | the stored (size, format) entry, or null |
| Database.ImageModel.HasFormatVariation | includes/database/models/ImageModel.php:369-384 | true exactly when the row exists and some stored size has the format |
| Database.ImageModel.GetAvailableFormats | includes/database/models/ImageModel.php:392-412 | lists each format once; `f` is listed exactly when `has_format_variation(id, f)` holds |
| Converter.ConversionStrategies | includes/features/optimization/ImageConverter.php:93-128 | webp and avif sources plan exactly `[png]`; jpeg and png sources plan exactly `[avif, webp]`, `[avif]`, `[webp]` or nothing as avif and webp are enabled; other mime types plan nothing; each target mime is `image/<format>` and never the source's own |
| Converter.TargetPath | includes/features/optimization/ImageConverter.php:190-191 | the definition of the target path; its properties are stated by `TargetPathParts` and `TargetPathJoin` |
| Converter.StrategiesDistinct | includes/features/optimization/ImageConverter.php:93-128 | no format is planned twice |
| Converter.QualityForFormat | includes/features/optimization/ImageConverter.php:251-271 | avif is capped at 85, webp at 90, other formats keep the base quality, and the quality never exceeds the base |
| Converter.TargetPathParts | includes/features/optimization/ImageConverter.php:190-191 | the converted file's basename is the source's filename stem plus `.` and the format, and its extension is the format |
| Converter.TargetPathJoin | includes/features/optimization/ImageConverter.php:191 | the target path is the destination directory with a trailing slash, followed by the new file name |
| Converter.UpdateWpMetadata | includes/features/optimization/ImageConverter.php:282-310 | `original` annotates the metadata under `original_<format>`; another size with size info annotates that size info under `<format>`; without size info nothing changes |
| Converter.SizeAnnotationReadBack | includes/features/optimization/ImageConverter.php:299-308 | a per-size annotation is read back by the legacy conversion as the catalog entry for that format |
| Converter.SizeJobs | includes/features/optimization/ImageConverter.php:156-158 | one job per WordPress size |
| Converter.SizeJobsAt | includes/features/optimization/ImageConverter.php:157-158 | job `i` converts size `i` from `trailingslashit(dir)` plus that size's file |
| Converter.Jobs | includes/features/optimization/ImageConverter.php:145-171 | one job for `original` and one per WordPress size |
| Converter.JobAt | includes/features/optimization/ImageConverter.php:145-171 | `original` comes first, from the attached file; then each size in order |
| Converter.AnnotateSizeKeeps | includes/features/optimization/ImageConverter.php:299-308 | a strategy changes no size's file, width or height |
| Converter.SameFilesSnoc | includes/features/optimization/ImageConverter.php:157-170 | extending two size lists with entries that have the same name and file keeps them job-equivalent |
| Converter.AnnotateListKeeps | includes/features/optimization/ImageConverter.php:157-170 | the loop through `&$size_info` keeps every size's name and file |
| Converter.SizeJobsSameFiles | includes/features/optimization/ImageConverter.php:157-158 | size lists with the same names and files give the same jobs |
| Converter.JobsAfterAnnotation | includes/features/optimization/ImageConverter.php:140-174 | the metadata a strategy returns yields the same jobs, so the next strategy converts the same files |
| Converter.AnnotateSizesAt | includes/features/optimization/ImageConverter.php:156-173 | size `k` of the returned metadata is size `k` after its own conversion |
| Converter.SizeAnnotation | includes/features/optimization/ImageConverter.php:157-170 | a saved size gains the `<format>` annotation with its file, mime, size, width and height, and nothing else of it changes; a failed one is left as it was |
| Converter.StrategyWrites | includes/features/optimization/ImageConverter.php:145-171 | the definition of the catalog writes of one strategy, job by job; its properties are stated by the `StrategyWrites*` lemmas |
| Converter.StrategyWritesStep | includes/features/optimization/ImageConverter.php:145-171 | each job adds one catalog write when the editor saved, and none otherwise |
| Converter.StrategyStepSaved | includes/features/optimization/ImageConverter.php:227-237 | a saved job performs its `add_format_variation` on the table |
| Converter.StrategyStepFailed | includes/features/optimization/ImageConverter.php:193-225 | an editor failure records nothing, and the loop goes on |
| Converter.StrategyStep | includes/features/optimization/ImageConverter.php:189-243 | the table after a job is the table after the writes of the jobs so far |
| Converter.UploadKeepsTopLevel | includes/features/optimization/ImageConverter.php:140-174 | because the metadata is passed by value, the returned metadata never gains an `original_<format>` annotation; only the sizes change |
| Converter.UploadWrites | includes/features/optimization/ImageConverter.php:74-82 | the definition of the catalog writes of an upload, strategy by strategy; its properties are stated by the `UploadWrites*` lemmas |
| Converter.AnnotateAll | includes/features/optimization/ImageConverter.php:74-82 | the definition of the metadata threaded through the strategies; its properties are stated by `AnnotateAllStep` and `UploadKeepsTopLevel` |
| Converter.UploadWritesStep | includes/features/optimization/ImageConverter.php:74-82 | strategy `k` appends its writes after those of the strategies before it |
| Converter.AnnotateAllStep | includes/features/optimization/ImageConverter.php:74-82 | each strategy starts from the metadata the previous strategy returned |
| Converter.StrategyWritesFrom | includes/features/optimization/ImageConverter.php:228-237 | every write of a strategy has complete data, names one of the jobs' sizes and the strategy's format |
| Converter.UploadWritesFrom | includes/features/optimization/ImageConverter.php:74-82 | every write of an upload has complete data and names one of the jobs' sizes |
| Converter.StrategyWritesAbsent | includes/features/optimization/ImageConverter.php:145-171 | a strategy writes nothing for another format or for a size that is not among its jobs |
| Converter.JobWriteEntry | includes/features/optimization/ImageConverter.php:228-237 | the write records the target's basename, the target mime and the file size |
| Converter.StrategyWritesLastJob | includes/features/optimization/ImageConverter.php:145-171 | the last job overrides the entry of its own size when saved, and leaves other sizes' entries |
| Converter.StrategyWritesLast | includes/features/optimization/ImageConverter.php:145-171 | with distinct sizes, the last write a strategy makes for a size is that size's job, present exactly when the editor saved |
| Converter.UploadWritesLast | includes/features/optimization/ImageConverter.php:74-82 | with distinct formats, only the strategy for a format writes that format's entries |
| Converter.UploadWritesFormats | includes/features/optimization/ImageConverter.php:74-82 | a format no strategy targets is never written |
| Converter.JobsDistinct | includes/features/optimization/ImageConverter.php:145-171 | when WordPress lists no size twice and none named `original`, no two jobs convert the same size |
| Converter.JobSizeInBase | includes/features/optimization/ImageConverter.php:64 | every job's size exists in the base record saved beforehand |
| Converter.JobSizesInBase | includes/features/optimization/ImageConverter.php:64-82 | all job sizes exist in the base record |
| Converter.UploadCatalogEntry | includes/features/optimization/ImageConverter.php:51-85 | after an upload, each (size, planned format) entry holds the converted file when the editor saved it and the base record's entry otherwise; no base size is lost |
| Converter.ImageConverter.constructor | includes/features/optimization/ImageConverter.php:36-39 | the converter works on the given catalog and settings |
| Converter.ImageConverter.ConvertSingleImage | includes/features/optimization/ImageConverter.php:189-243 | returns true exactly when the editor saved; records the variant in the catalog only then; annotates the size info passed by reference; the local metadata copy is discarded |
| Converter.ImageConverter.ConvertJob | includes/features/optimization/ImageConverter.php:145-170 | one `convert_single_image` call extends the strategy's writes by one job |
| Converter.ImageConverter.ConvertImageFormats | includes/features/optimization/ImageConverter.php:140-174 | converts `original` and then every size in order; returns the metadata with the sizes annotated; the catalog receives the strategy's writes |
| Converter.ImageConverter.ConvertSizes | includes/features/optimization/ImageConverter.php:156-171 | the by-reference sizes loop maps each size through its conversion, in order |
| Converter.ImageConverter.ConvertSizeAt | includes/features/optimization/ImageConverter.php:157-170 | one pass converts size `i` and assigns its annotated info through the reference |
| Converter.ImageConverter.HandleImageUpload | includes/features/optimization/ImageConverter.php:51-85 | without an attached file, nothing changes; otherwise the base record is saved, then every strategy runs in order on the metadata the previous one returned; with an empty plan the metadata comes back unchanged after the save |
| Converter.ImageConverter.ConvertStrategy | includes/features/optimization/ImageConverter.php:74-82 | one pass of the strategies loop appends that strategy's writes |
| Processor.Element.SetAttribute | includes/features/optimization/ImageProcessor.php:119-131 | `setAttribute` replaces the value in place or appends the attribute |
| Processor.GetAdaptiveUrl | includes/features/optimization/ImageProcessor.php:164-182 | the definition of `get_adaptive_url`; its properties are stated by `AdaptiveUrlQuery` and the `Adaptive*` lemmas |
| Processor.AdaptiveBaseParts | includes/features/optimization/ImageProcessor.php:173-176 | without a fragment, removing `?query` leaves the source's path with no `?` |
| Processor.AdaptiveKeysPlain | includes/features/optimization/ImageProcessor.php:178-179 | setting `width` and `trust_optimize` keeps the parameters readable back by `parse_str` |
| Processor.AdaptiveParamsPlain | includes/features/optimization/ImageProcessor.php:174-179 | the adaptive parameters of a source without a fragment are readable back by `parse_str` |
| Processor.AdaptiveParamsValues | includes/features/optimization/ImageProcessor.php:173-179 | `width` is the requested width (overriding any earlier value), `trust_optimize` is 1, and every other parameter is the source's |
| Processor.AdaptiveUrlQuery | includes/features/optimization/ImageProcessor.php:169-181 | the adaptive URL keeps the source's path, and its query reads back as exactly the adaptive parameters |
| Processor.Srcset | includes/features/optimization/ImageProcessor.php:141-155 | the definition of the srcset value; its properties are stated by `SrcsetEntries`, `SrcsetEntriesAt` and `SrcsetNonEmpty` |
| Processor.SrcsetEntries | includes/features/optimization/ImageProcessor.php:150-151 | one candidate per width |
| Processor.SrcsetEntriesAt | includes/features/optimization/ImageProcessor.php:148-151 | candidate `i` is `"<adaptive url> <w>w"` for breakpoint `i`, in ascending breakpoint order |
| Processor.SrcsetNonEmpty | includes/features/optimization/ImageProcessor.php:148-154 | the srcset is never empty, so `sizes` is always set |
| Processor.GenerateAdaptiveSrcset | includes/features/optimization/ImageProcessor.php:141-155 | the loop over the seven breakpoints, imploded with `", "`, computes `Srcset` |
| Processor.AnnotatedEffect | includes/features/optimization/ImageProcessor.php:118-132 | the five attributes get their values; all other attributes keep theirs; no attribute is duplicated |
| Processor.Processed | includes/features/optimization/ImageProcessor.php:107-133 | the definition of `process_image_element` on an attribute list; its properties are stated by `ProcessedEffect`, `ProcessedUnique` and `ProcessedIdempotent` |
| Processor.ProcessedEffect | includes/features/optimization/ImageProcessor.php:107-133 | an image with an empty `src`, a `data:` `src` or `data-original-src` is unchanged; any other image gains `data-original-src` = src, `data-adaptive` = true, `loading` = lazy, the srcset and `sizes` = auto, while `src` and every other attribute keep their values |
| Processor.ProcessedUnique | includes/features/optimization/ImageProcessor.php:118-132 | processing never duplicates an attribute |
| Processor.ProcessedIdempotent | includes/features/optimization/ImageProcessor.php:114-119 | processing twice is processing once |
| Processor.ProcessImageElement | includes/features/optimization/ImageProcessor.php:107-133 | the in-place attribute writes compute `Processed` |
| Processor.ProcessContentImages | includes/features/optimization/ImageProcessor.php:56-85 | in the admin, or for empty content, no image changes; otherwise every image is processed |
| PhpUrl.ParseWithQuery | includes/features/optimization/ImageProcessor.php:169-176 | `parse_url` of `base?query` has that query and the base's path |
| PhpUrl.ParseStrOfBuildQuery | includes/features/optimization/ImageProcessor.php:174-181 | `parse_str` reads back what `http_build_query` writes |
| PhpUrl.ParseStrPlain | includes/features/optimization/ImageProcessor.php:174 | `parse_str` always yields unique, non-empty keys free of `&` and `=` |
| PhpString.PathinfoOfDotted | includes/features/optimization/ImageConverter.php:190-191 | `pathinfo` splits `stem.ext` into the stem and the extension |
| PhpString.RemoveAllLeading | includes/utils/Helper.php:90 | `str_replace` of a prefix that occurs nowhere else leaves what follows it |
| Helper.IsValidImageUrl | includes/utils/Helper.php:114-127 | the definition of `is_valid_image_url`; its properties are stated by `ValidImagePath`, `ValidImageAbsolute`, `ValidIgnoresQuery` and `ValidImageExamples` |
| PhpUrl.ParseAbsolute | includes/utils/Helper.php:115-124 | `parse_url` of `scheme://host/path` has exactly that path and no query |
| Helper.ValidImagePath | includes/utils/Helper.php:114-127 | a path `dir/stem.ext` is a valid image URL exactly when the lower-cased `ext` is jpg, jpeg, png, gif or webp |
| Helper.ValidImageAbsolute | includes/utils/Helper.php:114-127 | an absolute URL `scheme://host/dir/stem.ext` is valid exactly when the lower-cased `ext` is jpg, jpeg, png, gif or webp |
| Helper.ValidIgnoresQuery | includes/utils/Helper.php:115-126 | the query never affects validity |
| Helper.ValidImageExamples | includes/utils/Helper.php:114-127 | an upper-case `.JPG` upload is valid; an `.avif` one is not, with or without a query |
| Helper.StripSizeSuffix | includes/utils/Helper.php:79 | the definition of the `preg_replace` that removes `-<w>x<h>` before a final `.jpg/.jpeg/.png/.gif`, where `$` also matches before a final newline; its properties are stated by the `StripSizeSuffix*` lemmas |
| Helper.ImageDotFound | includes/utils/Helper.php:79 | the dot found starts a final image extension |
| Helper.ImageDotOf | includes/utils/Helper.php:79 | a final image extension is the one found |
| Helper.DigitRunStartSpec | includes/utils/Helper.php:79 | the digit run found is all digits and maximal |
| Helper.DigitRunStartOf | includes/utils/Helper.php:79 | a maximal digit run is the one found |
| Helper.StripSizeSuffixRemoves | includes/utils/Helper.php:79 | any match of `-\d+x\d+` before a final `.jpg/.jpeg/.png/.gif` (either case) is removed |
| Helper.StripSizeSuffixSound | includes/utils/Helper.php:79 | a URL the pattern does not match is returned unchanged; otherwise exactly one match is removed |
| Helper.StripSizeSuffixShift | includes/utils/Helper.php:79 | stripping `dir/name` strips only within `name` |
| Helper.UploadRelativePath | includes/utils/Helper.php:79-90 | the definition of the normalisation in `get_attachment_id_from_url`; its property is stated by `UploadRelativePathOf` |
| Helper.UploadRelativePathOf | includes/utils/Helper.php:79-90 | the URL of an upload, or of one of its resized copies, leads back to the upload's relative path |
| Admin.StringToInt | includes/features/optimization/ImageConverter.php:253 | PHP 8's `(int)` of a string always lies within the 64-bit range |
| Admin.IntegerStringToInt | includes/features/optimization/ImageConverter.php:253 | an integer string (optionally followed by non-numeric text) casts to its decimal value, and with a `-` sign to its negation, saturated at PHP_INT_MAX and PHP_INT_MIN |
| Admin.ExponentStringToInt | includes/features/optimization/ImageConverter.php:253 | `<d>e<x>` casts to `d · 10^x`, saturated |
| Admin.FractionStringToInt | includes/features/optimization/ImageConverter.php:253 | `<d>.<f>e<x>` casts to the mantissa `df` scaled by `10^(x - |f|)`, truncated toward zero, saturated |
| Admin.NumericStringExamples | includes/features/optimization/ImageConverter.php:253 | `"1e2"` casts to 100, `"8.5e1"` to 85 and `"90abc"` to 90 |
| Admin.SaturationExample | includes/features/optimization/ImageConverter.php:253 | a twenty-digit string casts to PHP_INT_MAX, and its negation to PHP_INT_MIN |
| Admin.Settings.Get | includes/admin/Settings.php:54-66 | the stored value if set and non-null, else the caller's non-null default, else the built-in default; null exactly when all three are missing |
| Admin.Settings.GetAll | includes/admin/Settings.php:88-90 | the stored array exactly, key order included, or the defaults table in declaration order while none is stored; every set key reads as `get` returns it |
| Admin.Settings.Update | includes/admin/Settings.php:76-81 | assigns the key in place, or appends it when new, so the key order is the old order plus any new key at the end; every other key reads as before; returns whether the stored array changed under `===` (same pairs in the same order) |
| Admin.Settings.Reset | includes/admin/Settings.php:97-99 | stores the defaults table, so `get_all()` returns exactly the defaults; reports a change unless the stored array was identical to the defaults, key order included |
| Admin.Settings.AddDefaultSettings | includes/admin/Settings.php:40-44 | writes the defaults only when the option is missing or an empty array, and never overwrites stored settings |
| Admin.UpdateAllFresh | includes/admin/Settings.php:76-81 | a run of `update` calls with new, distinct keys appends the pairs in call order |
| Admin.ReversedUpdatesDiffer | includes/admin/Settings.php:76-99 | updating every default, last key first, on a missing option stores the defaults in reverse order, which differs from the defaults table |
| Admin.Settings.UpdateReversedThenReset | includes/admin/Settings.php:76-99 | after those updates, `reset()` reports a change, as PHP's `update_option` does for an array in another key order |

## Left out

- Database plumbing is not modelled: `$wpdb` queries, table creation, `current_time`.
  - JSON encoding and decoding of the metadata column is the identity.
  - Every database write succeeds, so the `false` results of `save` and of `add_format_variation`'s final `save` are not modelled.
- The image editor, `filesize`, `get_attached_file` and `wp_check_filetype` are parameters: an oracle function, an optional path and a mime-type function.
- The `trust_optimize_{format}_quality` filter is the identity.
- The `error_log` calls on editor failures are output only and are left out.
- `is_avif_supported` (GD and Imagick probing) is never called by the converter and is left out.
- Converter.ImageConverter.HandleImageUpload: the source's early return for an empty plan is merged into the general case. The model states the same result.
- Converter.ImageConverter.ConvertSingleImage: the return value of `add_format_variation` is ignored, as in the source. The model does not say why a catalog write failed.
- DOM parsing and serialisation in `process_content_images` are left out: `DOMDocument::loadHTML`, `saveHTML`, libxml error handling, the body-stripping regular expression and the `extension_loaded('dom')` check. The content's images are given as a list of elements.
- `is_admin()` is a parameter of `process_content_images`.
- `is_feature_enabled` always returns true, so it is left out.
- `process_thumbnail` only calls `process_content_images`, so it has no member of its own.
- The `width` and `height` attributes that `process_image_element` reads are never used, so they are left out.
- `parse_str` and `http_build_query` are modelled without percent-encoding or decoding, without PHP's key mangling (`.` and space to `_`) and without bracket array syntax (`a[]=1`).
- `parse_url` is modelled for the URL shapes that occur in image sources: relative paths, `//host/path` and `scheme://host/path`. It does not model rejection of malformed URLs, ports without a scheme, or the `scheme:path` form.
- Processor.AdaptiveUrlQuery: the contract requires a source without a fragment (`#`). For a source with a fragment, `get_adaptive_url` keeps the fragment in the base and appends the new query after it, so the query becomes part of the fragment.
- The database query half of `get_attachment_id_from_url` (includes/utils/Helper.php:93-105) is left out. The model stops at the relative path it would look up.
- `format_file_size` and `get_savings_percentage` compute with floating point and are left out.
- The other `Helper` predicates (`is_ajax`, `is_admin_screen`, `is_webp_supported`, `is_avif_supported`) only query WordPress or PHP state and are left out.
- `Settings::__construct` only registers the activation hook, so the model's constructor takes the stored option as a parameter.
- Admin.StringToInt: a float-form string (with `.` or an exponent) is read as an exact decimal, not as a double. The model does not capture rounding to 53 bits of mantissa, or the 0 that PHP gives for a value beyond the double range.
- `update_option`'s own behaviour is reduced to its `===` comparison of the stored array with the new one (same pairs in the same order). Its `maybe_serialize` comparison, filters and caching are left out.
- Concurrent writes to the same attachment row are not modelled: every operation is a single atomic step.
