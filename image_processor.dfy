/**
 * The front-end `<img>` annotator: every image of a post's content gets its original
 * `src` recorded, the adaptive and lazy-loading markers, and a fixed-breakpoint
 * `srcset` of adaptive URLs.  The attributes are rewritten in place; no `<picture>`
 * element is built.
 */
module Processor {
  import opened Optional
  import opened PhpArray
  import opened PhpString
  import opened PhpUrl

  /** `empty($s)` for a string: the empty string and "0". */
  predicate EmptyString(s: string) {
    s == "" || s == "0"
  }

  /** `getAttribute($name)`: the attribute's value, or "" when the element has none. */
  function AttributeValue(attributes: Entries<string>, name: string): string {
    Get(attributes, name).GetOr("")
  }

  /** An element of the parsed content: its attributes in document order. */
  class Element {
    var attributes: Entries<string>

    constructor (attributes: Entries<string>)
      ensures this.attributes == attributes
    {
      this.attributes := attributes;
    }

    function GetAttribute(name: string): string
      reads this
    {
      AttributeValue(attributes, name)
    }

    predicate HasAttribute(name: string)
      reads this
    {
      name in Keys(attributes)
    }

    /** `setAttribute`: replaces the value in place, or appends the attribute. */
    method SetAttribute(name: string, value: string)
      modifies this
      ensures attributes == Put(old(attributes), name, value)
    {
      attributes := Put(attributes, name, value);
    }
  }

  // ---------------------------------------------------------------------------
  // Adaptive URLs and the srcset
  // ---------------------------------------------------------------------------

  /** The query parameters `parse_str` reads from the source's query, none without one. */
  function SourceParams(src: string): Entries<string> {
    var query := ParseUrl(src).query;
    if query.Some? then ParseStr(query.value) else []
  }

  /** The adaptive URL's parameters: the source's own, then `width` and `trust_optimize` set. */
  function AdaptiveParams(src: string, width: nat): Entries<string> {
    Put(Put(SourceParams(src), "width", NatToString(width)), "trust_optimize", "1")
  }

  /** The source with every `?query` occurrence removed (`str_replace`), or as it is without a query. */
  function AdaptiveBase(src: string): string {
    var query := ParseUrl(src).query;
    if query.Some? then RemoveAll(src, "?" + query.value) else src
  }

  /** `get_adaptive_url($src, $width)`. */
  function GetAdaptiveUrl(src: string, width: nat): string {
    AdaptiveBase(src) + "?" + BuildQuery(AdaptiveParams(src, width))
  }

  /** Without a fragment, the base of an adaptive URL is the source cut before its query. */
  lemma AdaptiveBaseParts(src: string)
    requires '#' !in src
    ensures '?' !in AdaptiveBase(src) && '#' !in AdaptiveBase(src)
    ensures ParseUrl(AdaptiveBase(src)).path == ParseUrl(src).path
    ensures ParseUrl(src).query.Some? ==> '#' !in ParseUrl(src).query.value
  {
    IndexOfSpec(src, '#');
    IndexOfSpec(src, '?');
    var q := IndexOf(src, '?');
    if q >= 0 {
      var front := src[..q];
      var tail := "?" + src[q + 1..];
      assert src == front + tail;
      RemoveAllTrailing(front, tail);
      assert AdaptiveBase(src) == front;
      IndexOfSpec(front, '#');
      IndexOfSpec(front, '?');
    }
  }

  /** Setting `width` and `trust_optimize` keeps a parameter array plain and free of '#'. */
  lemma AdaptiveKeysPlain(existing: Entries<string>, width: nat)
    requires PlainParams(existing) && Avoids(existing, '#')
    ensures var params := Put(Put(existing, "width", NatToString(width)), "trust_optimize", "1");
      PlainParams(params) && Avoids(params, '#')
  {
    hide Put, NatToString;
    var w := NatToString(width);
    assert '&' !in w && '=' !in w && '#' !in w;
    PutPlain(existing, "width", w, '#');
    assert '#' !in "trust_optimize" && '#' !in "1";
    PutPlain(Put(existing, "width", w), "trust_optimize", "1", '#');
  }

  /** The adaptive parameters of a source without a fragment read back unchanged, and none holds '#'. */
  lemma AdaptiveParamsPlain(src: string, width: nat)
    requires '#' !in src
    ensures PlainParams(AdaptiveParams(src, width)) && Avoids(AdaptiveParams(src, width), '#')
  {
    hide ParseUrl, ParseStr, AdaptiveBase, Put, NatToString;
    AdaptiveBaseParts(src);
    var query := ParseUrl(src).query;
    if query.Some? {
      ParseStrPlain(query.value, '#');
    }
    AdaptiveKeysPlain(SourceParams(src), width);
  }

  /** The adaptive parameters set `width` and `trust_optimize`; every other parameter is the source's. */
  lemma AdaptiveParamsValues(src: string, width: nat)
    ensures var params := AdaptiveParams(src, width);
      && Get(params, "width") == Some(NatToString(width))
      && Get(params, "trust_optimize") == Some("1")
      && forall k :: k != "width" && k != "trust_optimize" ==> Get(params, k) == Get(SourceParams(src), k)
  {
    hide SourceParams, NatToString;
    var w := NatToString(width);
    var p1 := Put(SourceParams(src), "width", w);
    assert Get(Put(p1, "trust_optimize", "1"), "width") == Get(p1, "width");
  }

  /**
   * For a source without a fragment, the adaptive URL keeps the source's path, and its
   * query reads back as the source's parameters with `width` set to the requested
   * width and `trust_optimize` to 1, every other parameter as it was.
   */
  lemma AdaptiveUrlQuery(src: string, width: nat)
    requires '#' !in src
    ensures ParseUrl(GetAdaptiveUrl(src, width)).path == ParseUrl(src).path
    ensures ParseUrl(GetAdaptiveUrl(src, width)).query == Some(BuildQuery(AdaptiveParams(src, width)))
    ensures ParseStr(BuildQuery(AdaptiveParams(src, width))) == AdaptiveParams(src, width)
  {
    var params := AdaptiveParams(src, width);
    AdaptiveBaseParts(src);
    AdaptiveParamsPlain(src, width);
    BuildQueryAvoids(params, '#');
    ParseWithQuery(AdaptiveBase(src), BuildQuery(params));
    ParseStrOfBuildQuery(params);
  }

  /** The fixed breakpoints, ascending. */
  const Breakpoints: seq<nat> := [320, 480, 768, 1024, 1280, 1440, 1920]

  /** One `"<url> <w>w"` candidate of the srcset. */
  function SrcsetEntry(src: string, width: nat): string {
    GetAdaptiveUrl(src, width) + " " + NatToString(width) + "w"
  }

  /** The candidates for the given widths, in their order. */
  function SrcsetEntries(src: string, widths: seq<nat>): (r: seq<string>)
    ensures |r| == |widths|
    decreases |widths|
  {
    if widths == [] then []
    else
      var n := |widths| - 1;
      SrcsetEntries(src, widths[..n]) + [SrcsetEntry(src, widths[n])]
  }

  /** The srcset: one candidate per breakpoint, joined by ", ". */
  function Srcset(src: string): string {
    Join(SrcsetEntries(src, Breakpoints), ", ")
  }

  /** Candidate `i` of the srcset is the adaptive URL for breakpoint `i`. */
  lemma {:induction false} SrcsetEntriesAt(src: string, widths: seq<nat>, i: nat)
    requires i < |widths|
    ensures SrcsetEntries(src, widths)[i] == SrcsetEntry(src, widths[i])
    decreases |widths|
  {
    hide GetAdaptiveUrl;
    var n := |widths| - 1;
    if i < n {
      SrcsetEntriesAt(src, widths[..n], i);
    }
  }

  /** The srcset is never empty, so `sizes` is always set. */
  lemma SrcsetNonEmpty(src: string)
    ensures Srcset(src) != ""
  {
    hide GetAdaptiveUrl;
    var entries := SrcsetEntries(src, Breakpoints);
    SrcsetEntriesAt(src, Breakpoints, |Breakpoints| - 1);
    var last := entries[|entries| - 1];
    assert last[|last| - 1] == 'w';
    JoinNonEmpty(entries, ", ");
  }

  /** `generate_adaptive_srcset($src)`: appends one candidate per breakpoint, then implodes. */
  method GenerateAdaptiveSrcset(src: string) returns (srcset: string)
    ensures srcset == Srcset(src)
  {
    hide GetAdaptiveUrl;
    var entries: seq<string> := [];
    for i := 0 to |Breakpoints|
      invariant entries == SrcsetEntries(src, Breakpoints[..i])
    {
      var width := Breakpoints[i];
      entries := entries + [GetAdaptiveUrl(src, width) + " " + NatToString(width) + "w"];
      assert Breakpoints[..i + 1][..i] == Breakpoints[..i];
    }
    assert Breakpoints[..|Breakpoints|] == Breakpoints;
    srcset := Join(entries, ", ");
  }

  // ---------------------------------------------------------------------------
  // Annotating images
  // ---------------------------------------------------------------------------

  /** An image left alone: empty `src`, a `data:` URI, or one already processed. */
  predicate Skipped(attributes: Entries<string>) {
    var src := AttributeValue(attributes, "src");
    EmptyString(src) || "data:" <= src || "data-original-src" in Keys(attributes)
  }

  /** The attributes `process_image_element` writes. */
  const WrittenAttributes: seq<string> := ["data-original-src", "data-adaptive", "loading", "srcset", "sizes"]

  /** The attributes a processed image gains, given its `src` and its srcset. */
  function Annotated(attributes: Entries<string>, src: string, srcset: string): Entries<string> {
    var marked := Put(Put(Put(attributes, "data-original-src", src), "data-adaptive", "true"), "loading", "lazy");
    if srcset != "" then Put(Put(marked, "srcset", srcset), "sizes", "auto") else marked
  }

  /** The attributes of an image after `process_image_element`. */
  function Processed(attributes: Entries<string>): Entries<string> {
    if Skipped(attributes) then attributes
    else
      var src := AttributeValue(attributes, "src");
      Annotated(attributes, src, Srcset(src))
  }

  /** With a non-empty srcset, the five attributes are set and all others keep their values. */
  lemma AnnotatedEffect(attributes: Entries<string>, src: string, srcset: string)
    requires srcset != ""
    ensures var r := Annotated(attributes, src, srcset);
      && Get(r, "data-original-src") == Some(src)
      && Get(r, "data-adaptive") == Some("true")
      && Get(r, "loading") == Some("lazy")
      && Get(r, "srcset") == Some(srcset)
      && Get(r, "sizes") == Some("auto")
      && forall k :: k !in WrittenAttributes ==> Get(r, k) == Get(attributes, k)
    ensures UniqueKeys(attributes) ==> UniqueKeys(Annotated(attributes, src, srcset))
  {
    var a1 := Put(attributes, "data-original-src", src);
    var a2 := Put(a1, "data-adaptive", "true");
    var a3 := Put(a2, "loading", "lazy");
    var a4 := Put(a3, "srcset", srcset);
    var a5 := Put(a4, "sizes", "auto");
    assert Annotated(attributes, src, srcset) == a5;
    assert Get(a5, "srcset") == Get(a4, "srcset") == Some(srcset);
    assert Get(a5, "loading") == Get(a4, "loading") == Get(a3, "loading") == Some("lazy");
    assert Get(a5, "data-adaptive") == Get(a4, "data-adaptive") == Get(a3, "data-adaptive") == Get(a2, "data-adaptive");
    assert Get(a5, "data-original-src") == Get(a4, "data-original-src") == Get(a3, "data-original-src")
      == Get(a2, "data-original-src") == Get(a1, "data-original-src");
    forall k | k !in WrittenAttributes
      ensures Get(a5, k) == Get(attributes, k)
    {
      assert WrittenAttributes[0] != k && WrittenAttributes[1] != k && WrittenAttributes[2] != k;
      assert WrittenAttributes[3] != k && WrittenAttributes[4] != k;
      assert Get(a5, k) == Get(a4, k) == Get(a3, k) == Get(a2, k) == Get(a1, k) == Get(attributes, k);
    }
    if UniqueKeys(attributes) {
      PutUnique(attributes, "data-original-src", src);
      PutUnique(a1, "data-adaptive", "true");
      PutUnique(a2, "loading", "lazy");
      PutUnique(a3, "srcset", srcset);
      PutUnique(a4, "sizes", "auto");
    }
  }

  /**
   * A skipped image keeps its attributes; any other gains `data-original-src` = its
   * `src`, `data-adaptive` = true, `loading` = lazy, its srcset and `sizes` = auto,
   * while `src` and every other attribute keep their values and no attribute is
   * duplicated.
   */
  lemma ProcessedEffect(attributes: Entries<string>)
    ensures Skipped(attributes) ==> Processed(attributes) == attributes
    ensures !Skipped(attributes) ==>
      var r := Processed(attributes);
      var src := AttributeValue(attributes, "src");
      && Get(attributes, "src") == Some(src) && Get(r, "src") == Some(src)
      && Get(r, "data-original-src") == Some(src)
      && Get(r, "data-adaptive") == Some("true")
      && Get(r, "loading") == Some("lazy")
      && Get(r, "srcset") == Some(Srcset(src))
      && Get(r, "sizes") == Some("auto")
      && forall k :: k !in WrittenAttributes ==> Get(r, k) == Get(attributes, k)
  {
    hide Srcset, Put, Annotated;
    if !Skipped(attributes) {
      var src := AttributeValue(attributes, "src");
      var srcset := Srcset(src);
      var r := Processed(attributes);
      assert r == Annotated(attributes, src, srcset);
      SrcsetNonEmpty(src);
      AnnotatedEffect(attributes, src, srcset);
      assert src != "";
      assert Get(attributes, "src") == Some(src);
      assert "src" !in WrittenAttributes;
      assert Get(r, "src") == Get(attributes, "src");
    }
  }

  /** Processing never duplicates an attribute. */
  lemma ProcessedUnique(attributes: Entries<string>)
    requires UniqueKeys(attributes)
    ensures UniqueKeys(Processed(attributes))
  {
    hide Srcset, Put, Annotated;
    if !Skipped(attributes) {
      var src := AttributeValue(attributes, "src");
      var srcset := Srcset(src);
      assert Processed(attributes) == Annotated(attributes, src, srcset);
      SrcsetNonEmpty(src);
      AnnotatedEffect(attributes, src, srcset);
    }
  }

  /** Processing an image twice is processing it once: the first pass sets `data-original-src`. */
  lemma ProcessedIdempotent(attributes: Entries<string>)
    ensures Processed(Processed(attributes)) == Processed(attributes)
  {
    hide Srcset;
    ProcessedEffect(attributes);
  }

  /** `process_image_element($image)`. */
  method ProcessImageElement(image: Element)
    modifies image
    ensures image.attributes == Processed(old(image.attributes))
  {
    hide Srcset;
    ghost var before := image.attributes;
    var src := image.GetAttribute("src");
    if EmptyString(src) || "data:" <= src || image.HasAttribute("data-original-src") {
      assert Skipped(before);
      return;
    }
    assert !Skipped(before);
    image.SetAttribute("data-original-src", src);
    image.SetAttribute("data-adaptive", "true");
    image.SetAttribute("loading", "lazy");
    var srcset := GenerateAdaptiveSrcset(src);
    if srcset != "" {
      image.SetAttribute("srcset", srcset);
      image.SetAttribute("sizes", "auto");
    }
    assert image.attributes == Annotated(before, src, srcset);
  }

  /**
   * The image loop of `process_content_images`: in the admin or for empty content
   * nothing changes; otherwise every `<img>` of the content, in document order, is
   * processed.  `images` stands for the elements the HTML parser finds.
   */
  method ProcessContentImages(isAdmin: bool, content: string, images: seq<Element>)
    modifies set image | image in images
    ensures isAdmin || EmptyString(content) ==>
      forall image :: image in images ==> image.attributes == old(image.attributes)
    ensures !isAdmin && !EmptyString(content) ==>
      forall image :: image in images ==> image.attributes == Processed(old(image.attributes))
  {
    hide Srcset;
    if isAdmin || EmptyString(content) {
      return;
    }
    for i := 0 to |images|
      invariant forall image :: image in images ==>
        image.attributes == if image in images[..i] then Processed(old(image.attributes)) else old(image.attributes)
    {
      var image := images[i];
      ProcessedIdempotent(old(image.attributes));
      ProcessImageElement(image);
      assert images[..i + 1] == images[..i] + [image];
    }
    assert images[..|images|] == images;
  }
}
