/**
 * The variant catalog (namespace TrustOptimize\Database, class ImageModel): one row
 * per attachment whose metadata column records, per size, the width, the height and
 * the encoded files that exist in each format.  The database table is a map from
 * attachment id to record; its JSON column is taken to round-trip exactly.
 */
module Database {
  import opened Optional
  import opened PhpArray
  import opened PhpString

  /** One encoded file of one size: `{file, mime_type, file_size}`. */
  datatype FormatEntry = FormatEntry(file: string, mimeType: string, fileSize: int)

  /** One size: `{width, height, formats: format => FormatEntry}`. */
  datatype SizeEntry = SizeEntry(width: int, height: int, formats: Entries<FormatEntry>)

  /** The metadata column of one row: `{sizes: size_name => SizeEntry}`. */
  datatype Record = Record(sizes: Entries<SizeEntry>)

  /** An entry of a `trust_optimize_converted` array written into WordPress metadata. */
  datatype Annotation = Annotation(file: string, mimeType: string, fileSize: int, width: Option<int>, height: Option<int>)

  /** One entry of WordPress's `sizes` array (`file` is a bare file name). */
  datatype WpSize = WpSize(file: string, width: int, height: int, filesize: Option<int>, converted: Entries<Annotation>)

  /**
   * WordPress attachment metadata, as far as the plugin reads it.  `sizes` is None
   * when the key is absent or not an array; `otherKeys` says whether the array holds
   * any key not listed here, which only matters for PHP's `empty()`.
   */
  datatype WpMetadata = WpMetadata(
    width: Option<int>,
    height: Option<int>,
    file: Option<string>,
    filesize: Option<int>,
    sizes: Option<Entries<WpSize>>,
    converted: Entries<Annotation>,
    otherKeys: bool)

  /** The array a caller hands to `add_format_variation`; each key may be missing. */
  datatype FormatInput = FormatInput(file: Option<string>, mimeType: Option<string>, fileSize: Option<int>)

  /** PHP's `empty()` of the metadata array. */
  predicate IsEmpty(m: WpMetadata) {
    && m.width.None? && m.height.None? && m.file.None? && m.filesize.None?
    && m.sizes.None? && m.converted == [] && !m.otherKeys
  }

  /** `! $wp_metadata`: no metadata at all, or an empty array. */
  predicate Falsy(wp: Option<WpMetadata>) {
    wp.None? || IsEmpty(wp.value)
  }

  /** `$wp_metadata['sizes']` when it is an array, else nothing to iterate. */
  function WpSizes(m: WpMetadata): Entries<WpSize> {
    m.sizes.GetOr([])
  }

  /** `$wp_metadata['width'] ?? 0`, also when there is no metadata at all. */
  function WidthOf(wp: Option<WpMetadata>): int {
    if wp.Some? then wp.value.width.GetOr(0) else 0
  }

  /** `$wp_metadata['height'] ?? 0`, also when there is no metadata at all. */
  function HeightOf(wp: Option<WpMetadata>): int {
    if wp.Some? then wp.value.height.GetOr(0) else 0
  }

  /** `'image/' . ($ext === 'jpg' ? 'jpeg' : $ext)`. */
  function MimeForExtension(ext: string): string {
    "image/" + (if ext == "jpg" then "jpeg" else ext)
  }

  /** A WordPress size as the base record holds it: its one file, keyed by extension. */
  function SizeFromWp(s: WpSize): SizeEntry {
    var ext := Extension(s.file);
    SizeEntry(s.width, s.height, [(ext, FormatEntry(s.file, MimeForExtension(ext), s.filesize.GetOr(0)))])
  }

  /** The `original` size of the base record. */
  function OriginalSize(m: WpMetadata): SizeEntry {
    var formats :=
      if m.file.Some? then
        var ext := Extension(m.file.value);
        [(ext, FormatEntry(Basename(m.file.value), MimeForExtension(ext), m.filesize.GetOr(0)))]
      else [];
    SizeEntry(m.width.GetOr(0), m.height.GetOr(0), formats)
  }

  /** `$sizes[$size_name] = ...` for every WordPress size in turn. */
  function AddSizes(acc: Entries<SizeEntry>, ws: Entries<WpSize>): Entries<SizeEntry>
    decreases |ws|
  {
    if ws == [] then acc
    else Put(AddSizes(acc, ws[..|ws| - 1]), ws[|ws| - 1].0, SizeFromWp(ws[|ws| - 1].1))
  }

  /** One more WordPress size, in the order the loop adds them. */
  lemma AddSizesStep(acc: Entries<SizeEntry>, ws: Entries<WpSize>, i: nat)
    requires i < |ws|
    ensures AddSizes(acc, ws[..i + 1]) == Put(AddSizes(acc, ws[..i]), ws[i].0, SizeFromWp(ws[i].1))
  {
    assert ws[..i + 1][..i] == ws[..i];
  }

  /** Adding the WordPress sizes adds exactly their names to the keys. */
  lemma {:induction false} AddSizesKeys(acc: Entries<SizeEntry>, ws: Entries<WpSize>, k: string)
    ensures k in Keys(AddSizes(acc, ws)) <==> k in Keys(acc) || k in Keys(ws)
    decreases |ws|
  {
    if ws != [] {
      var n := |ws| - 1;
      AddSizesKeys(acc, ws[..n], k);
      KeysLast(ws);
    }
  }

  /** Adding the WordPress sizes keeps the size names unique. */
  lemma {:induction false} AddSizesUnique(acc: Entries<SizeEntry>, ws: Entries<WpSize>)
    requires UniqueKeys(acc)
    ensures UniqueKeys(AddSizes(acc, ws))
    decreases |ws|
  {
    if ws != [] {
      var n := |ws| - 1;
      AddSizesUnique(acc, ws[..n]);
      PutUnique(AddSizes(acc, ws[..n]), ws[n].0, SizeFromWp(ws[n].1));
    }
  }

  /**
   * After adding the WordPress sizes, each of them holds exactly the entry built from
   * it, and every other key is as before.
   */
  lemma {:induction false} AddSizesGet(acc: Entries<SizeEntry>, ws: Entries<WpSize>, k: string)
    requires UniqueKeys(ws)
    ensures Get(AddSizes(acc, ws), k) == if k in Keys(ws) then Some(SizeFromWp(Get(ws, k).value)) else Get(acc, k)
    decreases |ws|
  {
    if ws != [] {
      var n := |ws| - 1;
      KeysLast(ws);
      assert UniqueKeys(ws[..n]);
      AddSizesGet(acc, ws[..n], k);
      GetLast(ws, k);
    }
  }

  /** `create_base_metadata($wp_metadata)`, the specification of the method below. */
  function BaseMetadata(wp: Option<WpMetadata>): (r: Record)
    ensures Falsy(wp) ==> r == Record([])
  {
    if Falsy(wp) then Record([])
    else Record(AddSizes([("original", OriginalSize(wp.value))], WpSizes(wp.value)))
  }

  /** The sizes of a record, or None. */
  function SizeOf(rec: Record, size: string): Option<SizeEntry> {
    Get(rec.sizes, size)
  }

  /** The entry for one (size, format) pair of a record, or None. */
  function FormatOf(rec: Record, size: string, format: string): Option<FormatEntry> {
    var s := SizeOf(rec, size);
    if s.None? then None else Get(s.value.formats, format)
  }

  /** Every key array of the record is a PHP array: no duplicate size or format. */
  predicate WellFormed(rec: Record) {
    UniqueKeys(rec.sizes) && forall e :: e in rec.sizes ==> UniqueKeys(e.1.formats)
  }

  /** The values of the base sizes come from the `original` entry or from WordPress sizes. */
  lemma {:induction false} AddSizesEntries(acc: Entries<SizeEntry>, ws: Entries<WpSize>)
    requires forall e :: e in acc ==> |e.1.formats| <= 1
    ensures forall e :: e in AddSizes(acc, ws) ==> |e.1.formats| <= 1
    decreases |ws|
  {
    if ws != [] {
      var n := |ws| - 1;
      AddSizesEntries(acc, ws[..n]);
      PutEntries(AddSizes(acc, ws[..n]), ws[n].0, SizeFromWp(ws[n].1));
    }
  }

  /**
   * For a non-empty array, `create_base_metadata` returns a well-formed record holding
   * an `original` size and exactly the WordPress sizes besides, each of them with its
   * width and height and its one file, keyed by the file's extension; `original`
   * carries the array's width, height (0 when missing) and file, unless WordPress
   * itself lists a size of that name.
   */
  lemma BaseMetadataSizes(m: WpMetadata)
    requires !IsEmpty(m) && UniqueKeys(WpSizes(m))
    ensures var r := BaseMetadata(Some(m));
      && WellFormed(r)
      && (forall k :: k in Keys(r.sizes) <==> k == "original" || k in Keys(WpSizes(m)))
      && ("original" !in Keys(WpSizes(m)) ==> SizeOf(r, "original") == Some(OriginalSize(m)))
      && (forall i :: 0 <= i < |WpSizes(m)| ==> SizeOf(r, WpSizes(m)[i].0) == Some(SizeFromWp(WpSizes(m)[i].1)))
  {
    var acc := [("original", OriginalSize(m))];
    var ws := WpSizes(m);
    var sizes := AddSizes(acc, ws);
    assert BaseMetadata(Some(m)) == Record(sizes);
    AddSizesUnique(acc, ws);
    AddSizesEntries(acc, ws);
    forall e | e in sizes ensures UniqueKeys(e.1.formats) {
      assert |e.1.formats| <= 1;
    }
    assert Keys(acc) == ["original"];
    forall k ensures k in Keys(sizes) <==> k == "original" || k in Keys(ws) {
      AddSizesKeys(acc, ws, k);
    }
    AddSizesGet(acc, ws, "original");
    forall i | 0 <= i < |ws| ensures Get(sizes, ws[i].0) == Some(SizeFromWp(ws[i].1)) {
      AddSizesGet(acc, ws, ws[i].0);
      GetUnique(ws, i);
      assert ws[i].0 in Keys(ws) by { assert Keys(ws)[i] == ws[i].0; }
    }
  }

  /** `add_format_variation` needs both `file` and `mime_type` in its format data. */
  predicate Complete(data: FormatInput) {
    data.file.Some? && data.mimeType.Some?
  }

  /** The entry stored for complete format data; `file_size` defaults to 0. */
  function NewEntry(data: FormatInput): FormatEntry
    requires Complete(data)
  {
    FormatEntry(data.file.value, data.mimeType.value, data.fileSize.GetOr(0))
  }

  /** The record `add_format_variation` starts from: the stored one, else one built from WordPress metadata. */
  function StartingRecord(rec: Option<Record>, wp: Option<WpMetadata>): Option<Record> {
    if rec.Some? then rec else if Falsy(wp) then None else Some(BaseMetadata(wp))
  }

  /**
   * The size entry `add_format_variation` creates for a size the record lacks:
   * `original` from the attachment's width and height, a WordPress size from its own,
   * and none for any other name.
   */
  function MissingSize(wp: Option<WpMetadata>, size: string): Option<SizeEntry> {
    if size == "original" then Some(SizeEntry(WidthOf(wp), HeightOf(wp), []))
    else if wp.Some? && Get(WpSizes(wp.value), size).Some? then
      var s := Get(WpSizes(wp.value), size).value;
      Some(SizeEntry(s.width, s.height, []))
    else None
  }

  /** The size entry `add_format_variation` writes into: the record's own, else a new one. */
  function TargetSize(sizes: Entries<SizeEntry>, wp: Option<WpMetadata>, size: string): Option<SizeEntry> {
    if Get(sizes, size).Some? then Get(sizes, size) else MissingSize(wp, size)
  }

  /** The size entry written into has unique format keys when the record does. */
  lemma TargetSizeUnique(sizes: Entries<SizeEntry>, wp: Option<WpMetadata>, size: string)
    requires WellFormed(Record(sizes)) && TargetSize(sizes, wp, size).Some?
    ensures UniqueKeys(TargetSize(sizes, wp, size).value.formats)
  {
    if Get(sizes, size).Some? {
      GetIn(sizes, size);
    }
  }

  /**
   * The record `add_format_variation(id, size, format, data)` saves, given the stored
   * record and WordPress's metadata for the attachment; None when it returns false
   * and saves nothing.
   */
  function AddVariation(rec: Option<Record>, wp: Option<WpMetadata>, size: string, format: string, data: FormatInput): Option<Record> {
    var start := StartingRecord(rec, wp);
    if start.None? || !Complete(data) then None
    else
      var sizes := start.value.sizes;
      var target := TargetSize(sizes, wp, size);
      if target.None? then None
      else Some(Record(Put(sizes, size, target.value.(formats := Put(target.value.formats, format, NewEntry(data))))))
  }

  /**
   * `add_format_variation` fails, saving nothing, when the format data lacks `file` or
   * `mime_type`, when there is neither a record nor WordPress metadata, and when the
   * size is in neither the record nor WordPress's sizes and is not `original`; when it
   * succeeds, the (size, format) entry holds the data, `file_size` defaulting to 0.
   */
  lemma AddVariationOutcome(rec: Option<Record>, wp: Option<WpMetadata>, size: string, format: string, data: FormatInput)
    ensures var r := AddVariation(rec, wp, size, format, data);
      && (!Complete(data) ==> r.None?)
      && (rec.None? && Falsy(wp) ==> r.None?)
      && ((rec.Some? && size !in Keys(rec.value.sizes) && size != "original"
           && !(wp.Some? && size in Keys(WpSizes(wp.value)))) ==> r.None?)
      && (r.Some? ==> FormatOf(r.value, size, format) == Some(NewEntry(data)))
  {
  }

  /**
   * A successful `add_format_variation` changes one (size, format) entry: every other
   * size, every other format of that size, and the size's width and height stay as
   * they were; the only size name it can add is `size`.
   */
  lemma AddVariationFrame(rec: Option<Record>, wp: Option<WpMetadata>, size: string, format: string, data: FormatInput)
    requires AddVariation(rec, wp, size, format, data).Some?
    ensures var start := StartingRecord(rec, wp).value;
      var r := AddVariation(rec, wp, size, format, data).value;
      && (forall s :: s != size ==> SizeOf(r, s) == SizeOf(start, s))
      && (forall f :: f != format ==> FormatOf(r, size, f) == FormatOf(start, size, f))
      && (SizeOf(start, size).Some? ==>
            SizeOf(r, size).value.width == SizeOf(start, size).value.width
            && SizeOf(r, size).value.height == SizeOf(start, size).value.height)
      && (forall s :: s in Keys(r.sizes) <==> s in Keys(start.sizes) || s == size)
  {
  }

  /** Repeating `add_format_variation` for one pair overwrites the entry: the last write wins. */
  lemma {:induction false} AddVariationLastWriteWins(rec: Option<Record>, wp: Option<WpMetadata>, size: string, format: string, d1: FormatInput, d2: FormatInput)
    requires AddVariation(rec, wp, size, format, d1).Some?
    ensures AddVariation(AddVariation(rec, wp, size, format, d1), wp, size, format, d2)
         == AddVariation(rec, wp, size, format, d2)
  {
    if Complete(d2) {
      var sizes := StartingRecord(rec, wp).value.sizes;
      var target := TargetSize(sizes, wp, size).value;
      var t1 := target.(formats := Put(target.formats, format, NewEntry(d1)));
      PutPut(target.formats, format, NewEntry(d1), NewEntry(d2));
      PutPut(sizes, size, t1, t1.(formats := Put(t1.formats, format, NewEntry(d2))));
    }
  }

  /** Repeating the same `add_format_variation` leaves the record as it is: nothing is duplicated. */
  lemma AddVariationIdempotent(rec: Option<Record>, wp: Option<WpMetadata>, size: string, format: string, data: FormatInput)
    requires AddVariation(rec, wp, size, format, data).Some?
    ensures AddVariation(AddVariation(rec, wp, size, format, data), wp, size, format, data)
         == AddVariation(rec, wp, size, format, data)
  {
    AddVariationLastWriteWins(rec, wp, size, format, data, data);
  }

  /** `add_format_variation` keeps the size and format keys of a record unique. */
  lemma AddVariationWellFormed(rec: Option<Record>, wp: Option<WpMetadata>, size: string, format: string, data: FormatInput)
    requires rec.Some? ==> WellFormed(rec.value)
    requires wp.Some? ==> UniqueKeys(WpSizes(wp.value))
    requires AddVariation(rec, wp, size, format, data).Some?
    ensures WellFormed(AddVariation(rec, wp, size, format, data).value)
  {
    var start := StartingRecord(rec, wp).value;
    StartingRecordWellFormed(rec, wp);
    var sizes := start.sizes;
    var target := TargetSize(sizes, wp, size).value;
    TargetSizeUnique(sizes, wp, size);
    var t1 := target.(formats := Put(target.formats, format, NewEntry(data)));
    PutUnique(target.formats, format, NewEntry(data));
    PutSizeWellFormed(sizes, size, t1);
    assert AddVariation(rec, wp, size, format, data) == Some(Record(Put(sizes, size, t1)));
  }

  /** Storing a size entry with unique format keys into a well-formed record keeps it well-formed. */
  lemma PutSizeWellFormed(sizes: Entries<SizeEntry>, size: string, t: SizeEntry)
    requires WellFormed(Record(sizes)) && UniqueKeys(t.formats)
    ensures WellFormed(Record(Put(sizes, size, t)))
  {
    PutUnique(sizes, size, t);
    PutEntries(sizes, size, t);
    forall e | e in Put(sizes, size, t) ensures UniqueKeys(e.1.formats) {
      if e != (size, t) {
        assert e in sizes;
      }
    }
  }

  /** The record `add_format_variation` starts from has unique keys. */
  lemma StartingRecordWellFormed(rec: Option<Record>, wp: Option<WpMetadata>)
    requires rec.Some? ==> WellFormed(rec.value)
    requires wp.Some? ==> UniqueKeys(WpSizes(wp.value))
    requires StartingRecord(rec, wp).Some?
    ensures WellFormed(StartingRecord(rec, wp).value)
  {
    if rec.None? {
      BaseMetadataSizes(wp.value);
    }
  }

  /** `$wpdb->get_row(...)` on the table: the row of an attachment, or None. */
  function Lookup(t: map<int, Record>, id: int): Option<Record> {
    if id in t then Some(t[id]) else None
  }

  /** `wp_get_attachment_metadata($id)`: WordPress's metadata, or None (false). */
  function WpOf(wpMeta: map<int, WpMetadata>, id: int): Option<WpMetadata> {
    if id in wpMeta then Some(wpMeta[id]) else None
  }

  /** The table after one `add_format_variation` call. */
  function AddToTable(t: map<int, Record>, wpMeta: map<int, WpMetadata>, id: int, size: string, format: string, data: FormatInput): map<int, Record> {
    var r := AddVariation(Lookup(t, id), WpOf(wpMeta, id), size, format, data);
    if r.Some? then t[id := r.value] else t
  }

  /** One `add_format_variation` call for a fixed attachment. */
  datatype Write = Write(size: string, format: string, data: FormatInput)

  /** The table after a sequence of `add_format_variation` calls for one attachment. */
  function AddAll(t: map<int, Record>, wpMeta: map<int, WpMetadata>, id: int, writes: seq<Write>): map<int, Record>
    decreases |writes|
  {
    if writes == [] then t
    else
      var w := writes[|writes| - 1];
      AddToTable(AddAll(t, wpMeta, id, writes[..|writes| - 1]), wpMeta, id, w.size, w.format, w.data)
  }

  /** One more write at the end is one more `add_format_variation` call. */
  lemma AddAllSnoc(t: map<int, Record>, wpMeta: map<int, WpMetadata>, id: int, writes: seq<Write>, w: Write)
    ensures AddAll(t, wpMeta, id, writes + [w]) == AddToTable(AddAll(t, wpMeta, id, writes), wpMeta, id, w.size, w.format, w.data)
  {
    assert (writes + [w])[..|writes|] == writes;
  }

  /** Running two runs of writes one after the other is running their concatenation. */
  lemma {:induction false} AddAllAppend(t: map<int, Record>, wpMeta: map<int, WpMetadata>, id: int, a: seq<Write>, b: seq<Write>)
    ensures AddAll(t, wpMeta, id, a + b) == AddAll(AddAll(t, wpMeta, id, a), wpMeta, id, b)
    decreases |b|
  {
    if b == [] {
      assert a + b == a;
    } else {
      var n := |b| - 1;
      AddAllAppend(t, wpMeta, id, a, b[..n]);
      assert a + b == (a + b[..n]) + [b[n]];
      AddAllSnoc(t, wpMeta, id, a + b[..n], b[n]);
      AddAllSnoc(AddAll(t, wpMeta, id, a), wpMeta, id, b[..n], b[n]);
      assert b == b[..n] + [b[n]];
    }
  }

  /** The entry the last complete write to a (size, format) pair carries, if any. */
  function LastWrite(writes: seq<Write>, size: string, format: string): Option<FormatEntry>
    decreases |writes|
  {
    if writes == [] then None
    else
      var w := writes[|writes| - 1];
      if w.size == size && w.format == format && Complete(w.data) then Some(NewEntry(w.data))
      else LastWrite(writes[..|writes| - 1], size, format)
  }

  /** The last write to a pair among two runs: the second run's, else the first's. */
  lemma {:induction false} LastWriteAppend(a: seq<Write>, b: seq<Write>, size: string, format: string)
    ensures LastWrite(a + b, size, format)
         == if LastWrite(b, size, format).Some? then LastWrite(b, size, format) else LastWrite(a, size, format)
    decreases |b|
  {
    if b == [] {
      assert a + b == a;
    } else {
      var n := |b| - 1;
      assert (a + b)[..|a + b| - 1] == a + b[..n];
      LastWriteAppend(a, b[..n], size, format);
    }
  }

  /** One more write: it is the last one to its own pair when its data is complete. */
  lemma LastWriteSnoc(writes: seq<Write>, w: Write, size: string, format: string)
    ensures LastWrite(writes + [w], size, format)
         == if w.size == size && w.format == format && Complete(w.data) then Some(NewEntry(w.data)) else LastWrite(writes, size, format)
  {
    assert (writes + [w])[..|writes|] == writes;
  }

  /** No write to a pair, no last write to it. */
  lemma {:induction false} LastWriteNone(writes: seq<Write>, size: string, format: string)
    requires forall w :: w in writes ==> w.size != size || w.format != format
    ensures LastWrite(writes, size, format).None?
    decreases |writes|
  {
    if writes != [] {
      var n := |writes| - 1;
      assert writes[n] in writes;
      assert forall w :: w in writes[..n] ==> w in writes;
      LastWriteNone(writes[..n], size, format);
    }
  }

  /** Writes for one attachment never touch the row of another. */
  lemma {:induction false} AddAllOtherIds(t: map<int, Record>, wpMeta: map<int, WpMetadata>, id: int, writes: seq<Write>, other: int)
    requires other != id
    ensures Lookup(AddAll(t, wpMeta, id, writes), other) == Lookup(t, other)
    decreases |writes|
  {
    if writes != [] {
      AddAllOtherIds(t, wpMeta, id, writes[..|writes| - 1], other);
    }
  }

  /** On a stored row, complete data for a known size (or `original`) is always saved. */
  lemma AddVariationSucceeds(rec: Record, wp: Option<WpMetadata>, size: string, format: string, data: FormatInput)
    requires Complete(data)
    requires size in Keys(rec.sizes) || size == "original"
    ensures AddVariation(Some(rec), wp, size, format, data).Some?
  {
  }

  /** The one-entry effect of a successful `add_format_variation`, pair by pair. */
  lemma AddVariationEffect(rec: Record, wp: Option<WpMetadata>, size: string, format: string, data: FormatInput, s: string, f: string)
    requires AddVariation(Some(rec), wp, size, format, data).Some?
    ensures var r := AddVariation(Some(rec), wp, size, format, data).value;
      && FormatOf(r, s, f) == (if s == size && f == format then Some(NewEntry(data)) else FormatOf(rec, s, f))
      && (forall k :: k in Keys(rec.sizes) ==> k in Keys(r.sizes))
  {
    AddVariationFrame(Some(rec), wp, size, format, data);
  }

  /**
   * Upsert semantics over a run of writes to an existing row whose sizes are all known
   * (or `original`): each (size, format) entry ends up holding the last write to it,
   * and an entry no write touched keeps its old value.
   */
  lemma {:induction false} AddAllLookup(t: map<int, Record>, wpMeta: map<int, WpMetadata>, id: int, writes: seq<Write>, size: string, format: string)
    requires id in t
    requires forall w :: w in writes ==> Complete(w.data) && (w.size in Keys(t[id].sizes) || w.size == "original")
    ensures id in AddAll(t, wpMeta, id, writes)
    ensures forall s :: s in Keys(t[id].sizes) ==> s in Keys(AddAll(t, wpMeta, id, writes)[id].sizes)
    ensures FormatOf(AddAll(t, wpMeta, id, writes)[id], size, format)
         == if LastWrite(writes, size, format).Some? then LastWrite(writes, size, format) else FormatOf(t[id], size, format)
    decreases |writes|
  {
    if writes != [] {
      var n := |writes| - 1;
      var w := writes[n];
      assert forall x :: x in writes[..n] ==> x in writes;
      AddAllLookup(t, wpMeta, id, writes[..n], size, format);
      var prev := AddAll(t, wpMeta, id, writes[..n]);
      assert w in writes;
      var wp := WpOf(wpMeta, id);
      AddVariationSucceeds(prev[id], wp, w.size, w.format, w.data);
      AddVariationEffect(prev[id], wp, w.size, w.format, w.data, size, format);
      var r := AddVariation(Some(prev[id]), wp, w.size, w.format, w.data).value;
      assert AddAll(t, wpMeta, id, writes) == prev[id := r];
    }
  }

  /** Some size of the record has an entry for `format`. */
  predicate HasFormatIn(sizes: Entries<SizeEntry>, format: string) {
    exists i :: 0 <= i < |sizes| && format in Keys(sizes[i].1.formats)
  }

  /** Append to `acc` each key it does not hold yet, in order. */
  function AddNew(acc: seq<string>, keys: seq<string>): (r: seq<string>)
    ensures forall f :: f in r <==> f in acc || f in keys
    ensures NoDup(acc) ==> NoDup(r)
    decreases |keys|
  {
    if keys == [] then acc
    else
      var a := AddNew(acc, keys[..|keys| - 1]);
      var k := keys[|keys| - 1];
      assert keys == keys[..|keys| - 1] + [k];
      if k in a then a else a + [k]
  }

  /** The formats present in any size, each once, in order of first appearance. */
  function AvailableFormats(sizes: Entries<SizeEntry>): (r: seq<string>)
    ensures NoDup(r)
    ensures forall f :: f in r <==> HasFormatIn(sizes, f)
    decreases |sizes|
  {
    if sizes == [] then []
    else
      var n := |sizes| - 1;
      var r := AddNew(AvailableFormats(sizes[..n]), Keys(sizes[n].1.formats));
      assert forall f :: HasFormatIn(sizes, f) <==> HasFormatIn(sizes[..n], f) || f in Keys(sizes[n].1.formats) by {
        forall f ensures HasFormatIn(sizes, f) <==> HasFormatIn(sizes[..n], f) || f in Keys(sizes[n].1.formats) {
          if HasFormatIn(sizes, f) {
            var i :| 0 <= i < |sizes| && f in Keys(sizes[i].1.formats);
            if i < n { assert sizes[..n][i] == sizes[i]; }
          }
          if HasFormatIn(sizes[..n], f) {
            var i :| 0 <= i < n && f in Keys(sizes[..n][i].1.formats);
            assert sizes[..n][i] == sizes[i];
          }
        }
      }
      r
  }

  /** With unique size names, a format is present iff some size's lookup finds it. */
  lemma HasFormatMeansSomeSize(rec: Record, format: string)
    requires WellFormed(rec)
    ensures HasFormatIn(rec.sizes, format) <==> exists s :: FormatOf(rec, s, format).Some?
  {
    if HasFormatIn(rec.sizes, format) {
      var i :| 0 <= i < |rec.sizes| && format in Keys(rec.sizes[i].1.formats);
      GetUnique(rec.sizes, i);
      assert FormatOf(rec, rec.sizes[i].0, format).Some?;
    }
    if s :| FormatOf(rec, s, format).Some? {
      GetIn(rec.sizes, s);
      var i :| 0 <= i < |rec.sizes| && rec.sizes[i] == (s, SizeOf(rec, s).value);
      assert format in Keys(rec.sizes[i].1.formats);
    }
  }

  /**
   * The format key the deprecated `convert_from_wp_metadata` files an annotation
   * under: a key containing `_` is cut to its last `_`-separated segment
   * (`original_webp` becomes `webp`), any other key is kept.
   */
  function FormatKey(format: string): string {
    var i := LastIndexOf(format, '_');
    if i < 0 then format else format[i + 1..]
  }

  /** The legacy key holds no `_`: it is the key itself, or what follows one of its `_`. */
  lemma FormatKeySpec(format: string)
    ensures '_' !in FormatKey(format)
    ensures '_' !in format ==> FormatKey(format) == format
    ensures '_' in format ==> exists i :: 0 <= i < |format| && format[i] == '_' && FormatKey(format) == format[i + 1..]
  {
    var i := LastIndexOf(format, '_');
    LastIndexOfSpec(format, '_');
    if i >= 0 {
      assert format[i] == '_';
    }
  }

  /** A `trust_optimize_converted` annotation as a catalog entry. */
  function AnnotationEntry(a: Annotation): FormatEntry {
    FormatEntry(a.file, a.mimeType, a.fileSize)
  }

  /** `$sizes[$size_name]['formats'][$format_key] = ...` for every annotation of a size, in order. */
  function AddAnnotations(formats: Entries<FormatEntry>, conv: Entries<Annotation>): Entries<FormatEntry>
    decreases |conv|
  {
    if conv == [] then formats
    else
      var n := |conv| - 1;
      Put(AddAnnotations(formats, conv[..n]), FormatKey(conv[n].0), AnnotationEntry(conv[n].1))
  }

  /** A WordPress size as the legacy conversion files it: its own file, then its annotations. */
  function LegacySize(s: WpSize): SizeEntry {
    var base := SizeFromWp(s);
    base.(formats := AddAnnotations(base.formats, s.converted))
  }

  /** The legacy `original`: as in the base record, plus `webp` from an `original_webp` annotation. */
  function LegacyOriginal(m: WpMetadata): SizeEntry {
    var o := OriginalSize(m);
    var webp := Get(m.converted, "original_webp");
    if webp.Some? then o.(formats := Put(o.formats, "webp", AnnotationEntry(webp.value))) else o
  }

  /** `$sizes[$size_name] = ...` for every WordPress size in turn, the legacy way. */
  function AddLegacySizes(acc: Entries<SizeEntry>, ws: Entries<WpSize>): Entries<SizeEntry>
    decreases |ws|
  {
    if ws == [] then acc
    else Put(AddLegacySizes(acc, ws[..|ws| - 1]), ws[|ws| - 1].0, LegacySize(ws[|ws| - 1].1))
  }

  /** The deprecated `convert_from_wp_metadata`. */
  function LegacyMetadata(wp: Option<WpMetadata>): (r: Record)
    ensures Falsy(wp) ==> r == Record([])
  {
    if Falsy(wp) then Record([])
    else Record(AddLegacySizes([("original", LegacyOriginal(wp.value))], WpSizes(wp.value)))
  }

  /** No annotation on any size: the sizes come out as `create_base_metadata` builds them. */
  lemma {:induction false} AddLegacySizesPlain(acc: Entries<SizeEntry>, ws: Entries<WpSize>)
    requires forall w :: w in ws ==> w.1.converted == []
    ensures AddLegacySizes(acc, ws) == AddSizes(acc, ws)
    decreases |ws|
  {
    if ws != [] {
      var n := |ws| - 1;
      assert forall w :: w in ws[..n] ==> w in ws;
      AddLegacySizesPlain(acc, ws[..n]);
      assert ws[n] in ws;
      AddLegacySizesStep(acc, ws);
    }
  }

  /** One more size without annotations keeps the two folds equal. */
  lemma AddLegacySizesStep(acc: Entries<SizeEntry>, ws: Entries<WpSize>)
    requires ws != [] && ws[|ws| - 1].1.converted == []
    requires AddLegacySizes(acc, ws[..|ws| - 1]) == AddSizes(acc, ws[..|ws| - 1])
    ensures AddLegacySizes(acc, ws) == AddSizes(acc, ws)
  {
    assert LegacySize(ws[|ws| - 1].1) == SizeFromWp(ws[|ws| - 1].1);
  }

  /**
   * On WordPress metadata that carries no plugin annotations, the deprecated
   * conversion and `create_base_metadata` produce the same record.
   */
  lemma LegacyAgreesWithBase(wp: Option<WpMetadata>)
    requires wp.Some? ==> "original_webp" !in Keys(wp.value.converted)
    requires wp.Some? ==> forall w :: w in WpSizes(wp.value) ==> w.1.converted == []
    ensures LegacyMetadata(wp) == BaseMetadata(wp)
  {
    if !Falsy(wp) {
      AddLegacySizesPlain([("original", LegacyOriginal(wp.value))], WpSizes(wp.value));
    }
  }

  /**
   * The catalog store.  `table` is the plugin's table (attachment id => metadata
   * column), `rowIds` the auto-increment `id` of each row and `nextRowId` the next
   * one the database hands out; `wpMeta` is WordPress's attachment metadata, which
   * this class only reads.
   */
  class ImageModel {
    var table: map<int, Record>
    var rowIds: map<int, int>
    var nextRowId: int
    const wpMeta: map<int, WpMetadata>

    /** Every row has an id, and ids are positive and below the next one. */
    predicate Valid()
      reads this
    {
      && table.Keys == rowIds.Keys
      && 1 <= nextRowId
      && forall id :: id in rowIds ==> 1 <= rowIds[id] < nextRowId
    }

    /** An empty table over the given WordPress metadata. */
    constructor (wpMeta: map<int, WpMetadata>)
      ensures Valid()
      ensures table == map[] && this.wpMeta == wpMeta
    {
      table := map[];
      rowIds := map[];
      nextRowId := 1;
      this.wpMeta := wpMeta;
    }

    /** `get_by_attachment_id`: the decoded metadata column, or null when there is no row. */
    method GetByAttachmentId(id: int) returns (r: Option<Record>)
      ensures r.Some? <==> id in table
      ensures r.Some? ==> r.value == table[id]
    {
      if id in table {
        r := Some(table[id]);
      } else {
        r := None;
      }
    }

    /**
     * `save`: updates the row when one exists and returns its id, else inserts a row
     * under a fresh id; the other rows stay as they were.
     */
    method Save(id: int, metadata: Record) returns (rowId: int)
      requires Valid()
      modifies this
      ensures Valid()
      ensures table == old(table)[id := metadata]
      ensures rowIds == old(rowIds)[id := rowId]
      ensures id in old(table) ==> rowId == old(rowIds[id]) && nextRowId == old(nextRowId)
      ensures id !in old(table) ==> rowId == old(nextRowId) && nextRowId == old(nextRowId) + 1
      ensures rowId >= 1
    {
      var existing := GetByAttachmentId(id);
      if existing.Some? {
        rowId := rowIds[id];
      } else {
        rowId := nextRowId;
        nextRowId := nextRowId + 1;
      }
      table := table[id := metadata];
      rowIds := rowIds[id := rowId];
    }

    /** `delete`: removes the row of `id`, if any, and reports success. */
    method Delete(id: int) returns (ok: bool)
      requires Valid()
      modifies this
      ensures Valid()
      ensures ok
      ensures table == old(table) - {id}
      ensures rowIds == old(rowIds) - {id}
      ensures nextRowId == old(nextRowId)
    {
      table := table - {id};
      rowIds := rowIds - {id};
      ok := true;
    }

    /**
     * `$sizes[$name] = array(width, height, formats => array())` followed by
     * `$sizes[$name]['formats'][$ext] = $entry`: one size holding one file.
     */
    static method AssignSizeWithFile(sizes: Entries<SizeEntry>, name: string, width: int, height: int, ext: string, entry: FormatEntry)
      returns (r: Entries<SizeEntry>)
      ensures r == Put(sizes, name, SizeEntry(width, height, [(ext, entry)]))
    {
      var added := SizeEntry(width, height, []);
      r := Put(sizes, name, added);
      var formats := Put(added.formats, ext, entry);
      assert formats == [(ext, entry)];
      PutPut(sizes, name, added, added.(formats := formats));
      r := Put(r, name, added.(formats := formats));
    }

    /** The `original` size, with the attachment's own file when `file` is set. */
    static method AssignOriginal(m: WpMetadata) returns (sizes: Entries<SizeEntry>)
      ensures sizes == [("original", OriginalSize(m))]
    {
      sizes := [];
      if m.file.Some? {
        var ext := Extension(m.file.value);
        var entry := FormatEntry(Basename(m.file.value), MimeForExtension(ext), m.filesize.GetOr(0));
        sizes := AssignSizeWithFile(sizes, "original", m.width.GetOr(0), m.height.GetOr(0), ext, entry);
      } else {
        sizes := Put(sizes, "original", SizeEntry(m.width.GetOr(0), m.height.GetOr(0), []));
      }
    }

    /** `create_base_metadata`: fills `$sizes` with `original`, then every WordPress size in turn. */
    static method CreateBaseMetadata(wp: Option<WpMetadata>) returns (r: Record)
      ensures r == BaseMetadata(wp)
    {
      if Falsy(wp) {
        return Record([]);
      }
      var m := wp.value;
      var sizes := AssignOriginal(m);
      ghost var start := [("original", OriginalSize(m))];
      var ws := WpSizes(m);
      var i := 0;
      assert ws[..0] == [];
      assert sizes == AddSizes(start, ws[..0]);
      while i < |ws|
        invariant 0 <= i <= |ws|
        invariant sizes == AddSizes(start, ws[..i])
      {
        var name := ws[i].0;
        var s := ws[i].1;
        var ext := Extension(s.file);
        var entry := FormatEntry(s.file, MimeForExtension(ext), s.filesize.GetOr(0));
        sizes := AssignSizeWithFile(sizes, name, s.width, s.height, ext, entry);
        AddSizesStep(start, ws, i);
        assert SizeFromWp(s) == SizeEntry(s.width, s.height, [(ext, entry)]);
        assert sizes == AddSizes(start, ws[..i + 1]);
        i := i + 1;
      }
      assert ws[..i] == ws;
      r := Record(sizes);
    }

    /** The first step of `add_format_variation`: the stored record, else one built from WordPress's metadata. */
    method LoadOrCreate(id: int) returns (rec: Option<Record>)
      ensures rec == StartingRecord(Lookup(table, id), WpOf(wpMeta, id))
    {
      rec := GetByAttachmentId(id);
      if rec.None? {
        var wp := WpOf(wpMeta, id);
        if Falsy(wp) {
          return None;
        }
        var base := CreateBaseMetadata(wp);
        rec := Some(base);
      }
    }

    /**
     * The in-place part of `add_format_variation`: adds the size when the record lacks
     * it and WordPress knows it (or it is `original`), then writes the entry.
     */
    static method PlaceEntry(metadata: Record, wp: Option<WpMetadata>, size: string, format: string, data: FormatInput)
      returns (r: Option<Record>)
      requires Complete(data)
      ensures r == AddVariation(Some(metadata), wp, size, format, data)
    {
      var sizes := metadata.sizes;
      var existing := Get(sizes, size);
      var target: SizeEntry;
      if existing.Some? {
        target := existing.value;
      } else {
        if size == "original" {
          target := SizeEntry(WidthOf(wp), HeightOf(wp), []);
        } else if wp.Some? && Get(WpSizes(wp.value), size).Some? {
          var wpSize := Get(WpSizes(wp.value), size).value;
          target := SizeEntry(wpSize.width, wpSize.height, []);
        } else {
          return None;
        }
        sizes := Put(sizes, size, target);
      }
      var entry := FormatEntry(data.file.value, data.mimeType.value, data.fileSize.GetOr(0));
      var updated := target.(formats := Put(target.formats, format, entry));
      if existing.None? {
        PutPut(metadata.sizes, size, target, updated);
      }
      sizes := Put(sizes, size, updated);
      r := Some(Record(sizes));
    }

    /**
     * `add_format_variation`: loads the row (or builds a base record from WordPress's
     * metadata), checks the format data, makes sure the size exists, stores the entry
     * and saves; returns false, saving nothing, when any step fails.
     */
    method AddFormatVariation(id: int, size: string, format: string, data: FormatInput) returns (ok: bool)
      requires Valid()
      modifies this
      ensures Valid()
      ensures ok <==> AddVariation(Lookup(old(table), id), WpOf(wpMeta, id), size, format, data).Some?
      ensures table == AddToTable(old(table), wpMeta, id, size, format, data)
    {
      var metadata := LoadOrCreate(id);
      if metadata.None? {
        return false;
      }
      if data.file.None? || data.mimeType.None? {
        return false;
      }
      var updated := PlaceEntry(metadata.value, WpOf(wpMeta, id), size, format, data);
      if updated.None? {
        return false;
      }
      var rowId := Save(id, updated.value);
      ok := rowId >= 1;
    }

    /**
     * `delete` followed by the queries: the row is gone, so no entry, no format and
     * no available format is found for the attachment.
     */
    method DeleteThenQuery(id: int, size: string, format: string)
      returns (row: Option<Record>, entry: Option<FormatEntry>, has: bool, formats: seq<string>)
      requires Valid()
      modifies this
      ensures Valid()
      ensures row.None? && entry.None? && !has && formats == []
    {
      var deleted := Delete(id);
      row := GetByAttachmentId(id);
      entry := GetFormat(id, size, format);
      has := HasFormatVariation(id, format);
      formats := GetAvailableFormats(id);
    }

    /** `get_size_variations`: the stored size of an attachment, or null. */
    method GetSizeVariations(id: int, size: string) returns (r: Option<SizeEntry>)
      ensures r.Some? <==> id in table && size in Keys(table[id].sizes)
      ensures r.Some? ==> (size, r.value) in table[id].sizes
      ensures r == (if id in table then SizeOf(table[id], size) else None)
    {
      var imageData := GetByAttachmentId(id);
      if imageData.None? || Get(imageData.value.sizes, size).None? {
        return None;
      }
      r := Get(imageData.value.sizes, size);
      GetIn(imageData.value.sizes, size);
    }

    /** `get_format`: the stored entry for one (size, format) pair, or null. */
    method GetFormat(id: int, size: string, format: string) returns (r: Option<FormatEntry>)
      ensures r.Some? ==> id in table && size in Keys(table[id].sizes)
      ensures r == (if id in table then FormatOf(table[id], size, format) else None)
    {
      var sizeData := GetSizeVariations(id, size);
      if sizeData.None? || Get(sizeData.value.formats, format).None? {
        return None;
      }
      r := Get(sizeData.value.formats, format);
    }

    /** `has_format_variation`: whether any stored size of the attachment has `format`. */
    method HasFormatVariation(id: int, format: string) returns (b: bool)
      ensures b <==> id in table && HasFormatIn(table[id].sizes, format)
    {
      var imageData := GetByAttachmentId(id);
      if imageData.None? {
        return false;
      }
      var sizes := imageData.value.sizes;
      var i := 0;
      while i < |sizes|
        invariant 0 <= i <= |sizes|
        invariant forall j :: 0 <= j < i ==> format !in Keys(sizes[j].1.formats)
      {
        if Get(sizes[i].1.formats, format).Some? {
          return true;
        }
        i := i + 1;
      }
      return false;
    }

    /** `get_available_formats`: every format of every stored size, first appearance first, no repeats. */
    method GetAvailableFormats(id: int) returns (formats: seq<string>)
      ensures formats == (if id in table then AvailableFormats(table[id].sizes) else [])
      ensures NoDup(formats)
      ensures forall f :: f in formats <==> id in table && HasFormatIn(table[id].sizes, f)
    {
      formats := [];
      var imageData := GetByAttachmentId(id);
      if imageData.None? {
        return;
      }
      var sizes := imageData.value.sizes;
      var i := 0;
      while i < |sizes|
        invariant 0 <= i <= |sizes|
        invariant formats == AvailableFormats(sizes[..i])
      {
        var keys := Keys(sizes[i].1.formats);
        ghost var acc := formats;
        var j := 0;
        while j < |keys|
          invariant 0 <= j <= |keys|
          invariant formats == AddNew(acc, keys[..j])
        {
          if keys[j] !in formats {
            formats := formats + [keys[j]];
          }
          assert keys[..j + 1][..j] == keys[..j];
          j := j + 1;
        }
        assert keys[..j] == keys;
        assert sizes[..i + 1][..i] == sizes[..i];
        i := i + 1;
      }
      assert sizes[..i] == sizes;
    }
  }
}
