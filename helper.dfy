/**
 * URL helpers: whether a URL names an image by its extension, and the normalisation
 * `get_attachment_id_from_url` applies before its database lookup: the `-WxH` size
 * suffix is stripped, the upload base URL is checked for and then removed.
 */
module Helper {
  import opened Optional
  import opened PhpString
  import opened PhpUrl

  // ---------------------------------------------------------------------------
  // is_valid_image_url
  // ---------------------------------------------------------------------------

  /** The extensions `is_valid_image_url` accepts, lower-cased. */
  const ImageExtensions: seq<string> := ["jpg", "jpeg", "png", "gif", "webp"]

  /** `is_valid_image_url($url)`: the URL has a path whose lower-cased extension is allowed. */
  predicate IsValidImageUrl(url: string) {
    var path := ParseUrl(url).path;
    path.Some? && ToLower(Extension(path.value)) in ImageExtensions
  }

  /**
   * A root-relative path `dir/stem.ext` is a valid image URL exactly when `ext`,
   * lower-cased, is allowed: the check ignores the letter case of the extension.
   */
  lemma ValidImagePath(dir: string, stem: string, ext: string)
    requires dir != [] && dir[0] == '/' && dir[|dir| - 1] == '/' && (|dir| == 1 || dir[1] != '/')
    requires '/' !in stem && '/' !in ext && '.' !in ext && ext != []
    requires '?' !in dir + stem + ext && '#' !in dir + stem + ext
    ensures IsValidImageUrl(dir + stem + "." + ext) <==> ToLower(ext) in ImageExtensions
  {
    var name := stem + "." + ext;
    var p := dir + name;
    assert p == dir + stem + "." + ext;
    PathinfoOfDotted(stem, ext);
    BasenameOfJoin(dir, name);
    assert Extension(p) == ext;
    assert p[0] == '/' && (|p| == 1 || p[1] != '/');
    ParseRootPath(p);
  }

  /**
   * The same for an absolute URL `scheme://host/dir/stem.ext`, the form WordPress gives
   * its uploads: the scheme and host never matter, only the extension does.
   */
  lemma ValidImageAbsolute(scheme: string, host: string, dir: string, stem: string, ext: string)
    requires scheme != [] && forall k :: 0 <= k < |scheme| ==> IsSchemeChar(scheme[k])
    requires host != [] && '/' !in host && '?' !in host && '#' !in host
    requires dir != [] && dir[0] == '/' && dir[|dir| - 1] == '/'
    requires '/' !in stem && '/' !in ext && '.' !in ext && ext != []
    requires '?' !in dir + stem + ext && '#' !in dir + stem + ext
    ensures IsValidImageUrl(scheme + "://" + host + dir + stem + "." + ext) <==> ToLower(ext) in ImageExtensions
  {
    var name := stem + "." + ext;
    var p := dir + name;
    assert scheme + "://" + host + dir + stem + "." + ext == scheme + "://" + host + p;
    PathinfoOfDotted(stem, ext);
    BasenameOfJoin(dir, name);
    assert Extension(p) == ext;
    assert '?' !in p && '#' !in p;
    ParseAbsolute(scheme, host, p);
  }

  /** The query never matters: `base?query` is a valid image URL exactly when `base` is. */
  lemma ValidIgnoresQuery(base: string, query: string)
    requires '?' !in base && '#' !in base && '#' !in query
    ensures IsValidImageUrl(base + "?" + query) == IsValidImageUrl(base)
  {
    ParseWithQuery(base, query);
  }

  /** An upper-case JPEG upload is an image; an AVIF file or a URL without a path is not. */
  lemma ValidImageExamples()
    ensures IsValidImageUrl("/uploads/photo.JPG")
    ensures !IsValidImageUrl("/uploads/photo.avif")
    ensures !IsValidImageUrl("/uploads/photo.avif?v=2")
  {
    hide IsValidImageUrl, ParseUrl, Extension;
    assert "/uploads/photo.JPG" == "/uploads/" + "photo" + "." + "JPG";
    assert "/uploads/photo.avif" == "/uploads/" + "photo" + "." + "avif";
    assert "/uploads/photo.avif?v=2" == "/uploads/photo.avif" + "?" + "v=2";
    ValidImagePath("/uploads/", "photo", "JPG");
    assert ToLower("JPG") == "jpg";
    ValidImagePath("/uploads/", "photo", "avif");
    assert ToLower("avif") == "avif";
    ValidIgnoresQuery("/uploads/photo.avif", "v=2");
  }

  // ---------------------------------------------------------------------------
  // The size suffix: preg_replace('/-\d+x\d+(?=\.(jpg|jpeg|png|gif)$)/i', '', $url)
  // ---------------------------------------------------------------------------

  /** The extensions the size-suffix pattern looks for, lower-cased. */
  const SizedExtensions: seq<string> := ["jpg", "jpeg", "png", "gif"]

  /** `(jpg|jpeg|png|gif)` under the `i` flag. */
  predicate IsSizedExtension(x: string) {
    ToLower(x) in SizedExtensions
  }

  /**
   * Where the pattern's `$` can follow an extension: before a final newline (PCRE's `$`
   * also matches there), otherwise at the end.
   */
  function EndAnchor(s: string): (e: nat)
    ensures e <= |s|
  {
    if s != [] && s[|s| - 1] == '\n' then |s| - 1 else |s|
  }

  /** `(?=\.(jpg|jpeg|png|gif)$)` holds at `d`, in any letter case. */
  predicate ImageExtAt(s: string, d: int) {
    var e := EndAnchor(s);
    0 <= d < e && s[d] == '.' && IsSizedExtension(s[d + 1..e])
  }

  /** A non-empty run of ASCII digits (`\d+`). */
  predicate AllDigits(t: string) {
    t != [] && forall k :: 0 <= k < |t| ==> IsDigit(t[k])
  }

  /** `-\d+x\d+` (the `x` in either case) spans `s[i..d]` with its `x` at `m`, and the extension follows. */
  predicate SizeSuffixAt(s: string, i: int, m: int, d: int) {
    && 0 <= i < m < d <= |s|
    && s[i] == '-' && (s[m] == 'x' || s[m] == 'X')
    && AllDigits(s[i + 1..m]) && AllDigits(s[m + 1..d])
    && ImageExtAt(s, d)
  }

  /** The dot of the final image extension, or -1 when the URL ends otherwise. */
  function ImageDot(s: string): (d: int)
    ensures -1 <= d < EndAnchor(s)
  {
    var e := EndAnchor(s);
    var d := LastIndexOf(s[..e], '.');
    if d >= 0 && IsSizedExtension(s[d + 1..e]) then d else -1
  }

  /** The start of the run of digits that ends at `end`. */
  function DigitRunStart(s: string, end: nat): (j: nat)
    requires end <= |s|
    ensures j <= end
    decreases end
  {
    if end > 0 && IsDigit(s[end - 1]) then DigitRunStart(s, end - 1) else end
  }

  /** Where the `-WxH` suffix before the image extension begins, or -1 when there is none. */
  function SizeSuffixStart(s: string): (i: int)
    ensures -1 <= i && (i >= 0 ==> i < ImageDot(s))
  {
    var d := ImageDot(s);
    if d < 0 then -1
    else
      var j := DigitRunStart(s, d);
      if j == d || j == 0 || (s[j - 1] != 'x' && s[j - 1] != 'X') then -1
      else
        var k := DigitRunStart(s, j - 1);
        if k == j - 1 || k == 0 || s[k - 1] != '-' then -1 else k - 1
  }

  /** Line 79 of `get_attachment_id_from_url`: the size suffix removed, if there is one. */
  function StripSizeSuffix(s: string): string {
    var i := SizeSuffixStart(s);
    if i < 0 then s else s[..i] + s[ImageDot(s)..]
  }

  /** No allowed extension holds a '.' or a '/', whatever the letter case it is written in. */
  lemma SizedExtensionPlain(x: string)
    ensures IsSizedExtension(x) ==> '.' !in x && '/' !in x
  {
    if IsSizedExtension(x) {
      var l := ToLower(x);
      assert '.' !in l && '/' !in l;
      forall k | 0 <= k < |x|
        ensures x[k] != '.' && x[k] != '/'
      {
        assert l[k] == LowerChar(x[k]);
      }
    }
  }

  /** The computed dot is a final image extension. */
  lemma ImageDotFound(s: string)
    ensures ImageDot(s) >= 0 ==> ImageExtAt(s, ImageDot(s))
  {
    var e := EndAnchor(s);
    LastIndexOfSpec(s[..e], '.');
  }

  /** A final image extension is the one the computation finds. */
  lemma ImageDotOf(s: string, d: int)
    requires ImageExtAt(s, d)
    ensures ImageDot(s) == d
  {
    var e := EndAnchor(s);
    var t := s[..e];
    SizedExtensionPlain(s[d + 1..e]);
    assert t == t[..d] + ['.'] + s[d + 1..e];
    LastIndexOfBefore(t[..d], '.', s[d + 1..e]);
  }

  /** The digit run found is all digits, and no digit precedes it. */
  lemma {:induction false} DigitRunStartSpec(s: string, end: nat)
    requires end <= |s|
    ensures forall k :: DigitRunStart(s, end) <= k < end ==> IsDigit(s[k])
    ensures DigitRunStart(s, end) == 0 || !IsDigit(s[DigitRunStart(s, end) - 1])
    decreases end
  {
    if end > 0 && IsDigit(s[end - 1]) {
      DigitRunStartSpec(s, end - 1);
    }
  }

  /** A maximal run of digits ending at `end` is the one found. */
  lemma {:induction false} DigitRunStartOf(s: string, j: nat, end: nat)
    requires j <= end <= |s|
    requires forall k :: j <= k < end ==> IsDigit(s[k])
    requires j == 0 || !IsDigit(s[j - 1])
    ensures DigitRunStart(s, end) == j
    decreases end
  {
    if end > j {
      DigitRunStartOf(s, j, end - 1);
    }
  }

  /** A stretch of digits is a `\d+` run. */
  lemma DigitsSlice(s: string, a: int, b: int)
    requires 0 <= a < b <= |s|
    requires forall k :: a <= k < b ==> IsDigit(s[k])
    ensures AllDigits(s[a..b])
  {
    var t := s[a..b];
    forall k | 0 <= k < |t|
      ensures IsDigit(t[k])
    {
      assert t[k] == s[a + k];
    }
  }

  /** Every match of the pattern is removed: the result is the URL without `s[i..d]`. */
  lemma StripSizeSuffixRemoves(s: string, i: int, m: int, d: int)
    requires SizeSuffixAt(s, i, m, d)
    ensures StripSizeSuffix(s) == s[..i] + s[d..]
  {
    ImageDotOf(s, d);
    forall k | m + 1 <= k < d
      ensures IsDigit(s[k])
    {
      assert s[k] == s[m + 1..d][k - m - 1];
    }
    DigitRunStartOf(s, m + 1, d);
    forall k | i + 1 <= k < m
      ensures IsDigit(s[k])
    {
      assert s[k] == s[i + 1..m][k - i - 1];
    }
    DigitRunStartOf(s, i + 1, m);
    assert SizeSuffixStart(s) == i;
  }

  /** Nothing else is removed: a URL the pattern does not match is returned as it is. */
  lemma StripSizeSuffixSound(s: string)
    ensures StripSizeSuffix(s) == s
      || exists i, m, d :: SizeSuffixAt(s, i, m, d) && StripSizeSuffix(s) == s[..i] + s[d..]
  {
    var i := SizeSuffixStart(s);
    if i >= 0 {
      var d := ImageDot(s);
      ImageDotFound(s);
      var j := DigitRunStart(s, d);
      DigitRunStartSpec(s, d);
      var m := j - 1;
      DigitRunStartSpec(s, m);
      DigitsSlice(s, m + 1, d);
      DigitsSlice(s, i + 1, m);
      assert SizeSuffixAt(s, i, m, d);
    }
  }

  // ---------------------------------------------------------------------------
  // Stripping inside a directory: the suffix never reaches across a '/'
  // ---------------------------------------------------------------------------

  /** A prefix ending in '/' shifts the end anchor by its length. */
  lemma EndAnchorShift(p: string, r: string)
    requires p != [] && p[|p| - 1] == '/'
    ensures EndAnchor(p + r) == |p| + EndAnchor(r)
  {
    var s := p + r;
    if r != [] {
      assert s[|s| - 1] == r[|r| - 1];
    } else {
      assert s == p;
    }
  }

  /** An extension in `r` is one in `dir/r`, moved by the directory's length. */
  lemma ImageExtShift(p: string, r: string, d: int)
    requires p != [] && p[|p| - 1] == '/'
    requires ImageExtAt(r, d)
    ensures ImageExtAt(p + r, |p| + d)
  {
    var s := p + r;
    EndAnchorShift(p, r);
    var er := EndAnchor(r);
    assert s[|p| + d] == r[d];
    assert s[|p| + d + 1..|p| + er] == r[d + 1..er];
  }

  /** An extension of `dir/r` lies within `r`: the '/' ending `dir` cannot be part of it. */
  lemma ImageExtUnshift(p: string, r: string, d: int)
    requires p != [] && p[|p| - 1] == '/'
    ensures ImageExtAt(p + r, d) ==> d >= |p| && ImageExtAt(r, d - |p|)
  {
    var s := p + r;
    EndAnchorShift(p, r);
    var e := EndAnchor(s);
    if 0 <= d < e && s[d] == '.' {
      var x := s[d + 1..e];
      SizedExtensionPlain(x);
      if d < |p| {
        assert x[|p| - 2 - d] == '/';
      } else {
        var er := EndAnchor(r);
        assert r[d - |p|] == s[d];
        assert r[d - |p| + 1..er] == x;
      }
    }
  }

  /** A prefix ending in '/' shifts the dot of the extension by its length. */
  lemma ImageDotShift(p: string, r: string)
    requires p != [] && p[|p| - 1] == '/'
    ensures ImageDot(p + r) == if ImageDot(r) < 0 then -1 else |p| + ImageDot(r)
  {
    hide ImageDot, ImageExtAt;
    ImageDotFound(p + r);
    ImageExtUnshift(p, r, ImageDot(p + r));
    if ImageDot(p + r) >= 0 {
      ImageDotOf(r, ImageDot(p + r) - |p|);
    }
    ImageDotFound(r);
    if ImageDot(r) >= 0 {
      ImageExtShift(p, r, ImageDot(r));
      ImageDotOf(p + r, |p| + ImageDot(r));
    }
  }

  /** A prefix ending in a non-digit shifts a run of digits by its length. */
  lemma {:induction false} DigitRunStartShift(p: string, r: string, end: nat)
    requires p != [] && !IsDigit(p[|p| - 1]) && end <= |r|
    ensures DigitRunStart(p + r, |p| + end) == |p| + DigitRunStart(r, end)
    decreases end
  {
    var s := p + r;
    if end > 0 {
      assert s[|p| + end - 1] == r[end - 1];
      DigitRunStartShift(p, r, end - 1);
    } else {
      assert s[|p| - 1] == p[|p| - 1];
    }
  }

  /** A prefix ending in '/' shifts the start of the size suffix by its length. */
  lemma SizeSuffixStartShift(p: string, r: string)
    requires p != [] && p[|p| - 1] == '/'
    ensures SizeSuffixStart(p + r) == if SizeSuffixStart(r) < 0 then -1 else |p| + SizeSuffixStart(r)
  {
    hide ImageDot;
    var s := p + r;
    ImageDotShift(p, r);
    var d := ImageDot(r);
    if d >= 0 {
      DigitRunStartShift(p, r, d);
      var j := DigitRunStart(r, d);
      assert s[|p| + j - 1] == if j == 0 then '/' else r[j - 1];
      if j != d && j != 0 && (r[j - 1] == 'x' || r[j - 1] == 'X') {
        DigitRunStartShift(p, r, j - 1);
        var k := DigitRunStart(r, j - 1);
        assert s[|p| + k - 1] == if k == 0 then '/' else r[k - 1];
      }
    }
  }

  /** Stripping `dir/name` strips only `name`. */
  lemma StripSizeSuffixShift(p: string, r: string)
    requires p != [] && p[|p| - 1] == '/'
    ensures StripSizeSuffix(p + r) == p + StripSizeSuffix(r)
  {
    hide SizeSuffixStart, ImageDot;
    SizeSuffixStartShift(p, r);
    ImageDotShift(p, r);
    var i := SizeSuffixStart(r);
    if i >= 0 {
      var s := p + r;
      var d := ImageDot(r);
      assert s[..|p| + i] == p + r[..i];
      assert s[|p| + d..] == r[d..];
    }
  }

  // ---------------------------------------------------------------------------
  // The upload-relative path (lines 79-90 of get_attachment_id_from_url)
  // ---------------------------------------------------------------------------

  /**
   * The path `get_attachment_id_from_url` looks up: the size suffix stripped, `false`
   * (None) unless `baseurl/` occurs in what is left, and then every occurrence of
   * `baseurl/` removed (`str_replace`).
   */
  function UploadRelativePath(imageUrl: string, baseUrl: string): Option<string> {
    var url := StripSizeSuffix(imageUrl);
    var prefix := baseUrl + "/";
    if !Contains(url, prefix) then None else Some(RemoveAll(url, prefix))
  }

  /**
   * The URL of an upload, or of one of its resized copies, leads back to the upload's
   * relative path, provided that path does not itself repeat `baseurl/`.
   */
  lemma UploadRelativePathOf(baseUrl: string, rel: string)
    requires !Contains(StripSizeSuffix(rel), baseUrl + "/")
    ensures UploadRelativePath(baseUrl + "/" + rel, baseUrl) == Some(StripSizeSuffix(rel))
  {
    var prefix := baseUrl + "/";
    assert baseUrl + "/" + rel == prefix + rel;
    StripSizeSuffixShift(prefix, rel);
    var stripped := prefix + StripSizeSuffix(rel);
    assert OccursAt(stripped, prefix, 0);
    RemoveAllLeading(prefix, StripSizeSuffix(rel));
  }
}
