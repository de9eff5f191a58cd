/**
 * The PHP string functions the plugin's core calls, on byte strings: `rtrim`,
 * `basename`, `pathinfo`, `dirname`, WordPress's `trailingslashit`, `strtolower`,
 * `strpos`, `str_replace` with an empty replacement, `implode` and integer-to-string.
 * Paths use '/' as the only directory separator (PHP on a POSIX host).
 */
module PhpString {

  /** `rtrim($s, $cs)`: strip trailing characters drawn from `cs`. */
  function RTrim(s: string, cs: set<char>): (r: string)
    ensures |r| <= |s|
  {
    if s != [] && s[|s| - 1] in cs then RTrim(s[..|s| - 1], cs) else s
  }

  /** `rtrim` keeps a prefix, ends outside `cs`, and removes only characters of `cs`. */
  lemma {:induction false} RTrimSpec(s: string, cs: set<char>)
    ensures RTrim(s, cs) <= s
    ensures RTrim(s, cs) == [] || RTrim(s, cs)[|RTrim(s, cs)| - 1] !in cs
    ensures forall i :: |RTrim(s, cs)| <= i < |s| ==> s[i] in cs
  {
    if s != [] && s[|s| - 1] in cs {
      RTrimSpec(s[..|s| - 1], cs);
    }
  }

  /** Index of the last `c` in `s`, or -1 (`strrpos` returning false). */
  function LastIndexOf(s: string, c: char): (i: int)
    ensures -1 <= i < |s|
  {
    if s == [] then -1
    else if s[|s| - 1] == c then |s| - 1
    else LastIndexOf(s[..|s| - 1], c)
  }

  /** `strrpos` finds an occurrence of `c`, and none follows it. */
  lemma {:induction false} LastIndexOfSpec(s: string, c: char)
    ensures 0 <= LastIndexOf(s, c) ==> s[LastIndexOf(s, c)] == c
    ensures forall j :: LastIndexOf(s, c) < j < |s| ==> s[j] != c
  {
    if s != [] && s[|s| - 1] != c {
      var u := s[..|s| - 1];
      LastIndexOfSpec(u, c);
      assert forall j :: LastIndexOf(u, c) < j < |u| ==> s[j] == u[j];
    }
  }

  /** What follows the last '/' of `t`, or all of `t` when it has none. */
  function LastSegment(t: string): (b: string)
    ensures |b| <= |t|
  {
    if t == [] || t[|t| - 1] == '/' then [] else LastSegment(t[..|t| - 1]) + [t[|t| - 1]]
  }

  /** The last segment holds no '/'. */
  lemma {:induction false} LastSegmentNoSlash(t: string)
    ensures '/' !in LastSegment(t)
  {
    if t != [] && t[|t| - 1] != '/' {
      LastSegmentNoSlash(t[..|t| - 1]);
    }
  }

  /** A `c` after a `c`-free tail is the last one. */
  lemma {:induction false} LastIndexOfBefore(a: string, c: char, b: string)
    requires c !in b
    ensures LastIndexOf(a + [c] + b, c) == |a|
    decreases |b|
  {
    if b != [] {
      var s := a + [c] + b;
      assert s[|s| - 1] == b[|b| - 1];
      assert s[..|s| - 1] == a + [c] + b[..|b| - 1];
      LastIndexOfBefore(a, c, b[..|b| - 1]);
    }
  }

  /** The last `c` of `a + b` is the last one of `b`, or of `a` when `b` has none. */
  lemma {:induction false} LastIndexOfAppend(a: string, b: string, c: char)
    ensures LastIndexOf(a + b, c) == if LastIndexOf(b, c) >= 0 then |a| + LastIndexOf(b, c) else LastIndexOf(a, c)
    decreases |b|
  {
    if b == [] {
      assert a + b == a;
    } else {
      var s := a + b;
      assert s[|s| - 1] == b[|b| - 1];
      assert s[..|s| - 1] == a + b[..|b| - 1];
      LastIndexOfAppend(a, b[..|b| - 1], c);
    }
  }

  /** Index of the first `c` in `s`, or -1 (`strpos` returning false). */
  function IndexOf(s: string, c: char): (i: int)
    ensures -1 <= i < |s|
  {
    if s == [] then -1
    else if s[0] == c then 0
    else
      var j := IndexOf(s[1..], c);
      if j < 0 then -1 else j + 1
  }

  /** `strpos` finds the first occurrence of `c`, and answers -1 exactly when there is none. */
  lemma {:induction false} IndexOfSpec(s: string, c: char)
    ensures IndexOf(s, c) < 0 <==> c !in s
    ensures 0 <= IndexOf(s, c) ==> s[IndexOf(s, c)] == c && c !in s[..IndexOf(s, c)]
  {
    if s != [] && s[0] != c {
      IndexOfSpec(s[1..], c);
      var j := IndexOf(s[1..], c);
      if j >= 0 {
        assert s[..j + 1] == [s[0]] + s[1..][..j];
      }
    }
  }

  /** A `c` after a `c`-free head is the first one. */
  lemma IndexOfAfter(a: string, c: char, b: string)
    requires c !in a
    ensures IndexOf(a + [c] + b, c) == |a|
  {
    var s := a + [c] + b;
    IndexOfSpec(s, c);
    assert s[|a|] == c;
    assert s[..|a|] == a;
  }

  /** The last segment is what follows the last '/' (`substr($t, strrpos($t, '/') + 1)`). */
  lemma {:induction false} LastSegmentAfterSlash(t: string)
    ensures LastSegment(t) == t[LastIndexOf(t, '/') + 1..]
  {
    if t != [] && t[|t| - 1] != '/' {
      var u := t[..|t| - 1];
      LastSegmentAfterSlash(u);
      assert t[LastIndexOf(t, '/') + 1..] == u[LastIndexOf(u, '/') + 1..] + [t[|t| - 1]];
    }
  }

  /** `basename($p)`: the last path component, trailing slashes ignored. */
  function Basename(p: string): (b: string)
    ensures |b| <= |p|
  {
    LastSegment(RTrim(p, {'/'}))
  }

  /** `pathinfo($p, PATHINFO_EXTENSION)`: what follows the last '.' of the basename, or "". */
  function Extension(p: string): (e: string)
  {
    var b := Basename(p);
    var i := LastIndexOf(b, '.');
    if i < 0 then "" else b[i + 1..]
  }

  /** `pathinfo($p, PATHINFO_FILENAME)`: the basename up to its last '.'. */
  function Filename(p: string): (f: string)
  {
    var b := Basename(p);
    var i := LastIndexOf(b, '.');
    if i < 0 then b else b[..i]
  }

  /** `basename` and `pathinfo` return no '/', and the extension holds no '.'. */
  lemma PathPartsNoSeparator(p: string)
    ensures '/' !in Basename(p) && '/' !in Filename(p)
    ensures '/' !in Extension(p) && '.' !in Extension(p)
  {
    LastSegmentNoSlash(RTrim(p, {'/'}));
    LastIndexOfSpec(Basename(p), '.');
  }

  /** The basename is the filename, then '.' and the extension when it has a dot. */
  lemma BasenameSplits(p: string)
    ensures Basename(p) == if '.' in Basename(p) then Filename(p) + "." + Extension(p) else Filename(p)
  {
    var b := Basename(p);
    var i := LastIndexOf(b, '.');
    LastIndexOfSpec(b, '.');
    if i >= 0 {
      assert b == b[..i] + "." + b[i + 1..];
    }
  }

  /** The basename of a directory ending in '/' joined with a plain name is that name. */
  lemma BasenameOfJoin(dir: string, name: string)
    requires dir != [] && dir[|dir| - 1] == '/'
    requires name != [] && '/' !in name
    ensures Basename(dir + name) == name
  {
    var p := dir + name;
    assert p[|p| - 1] == name[|name| - 1];
    assert RTrim(p, {'/'}) == p;
    var i := LastIndexOf(p, '/');
    LastIndexOfSpec(p, '/');
    LastSegmentAfterSlash(p);
    assert p[|dir| - 1] == '/';
    assert i == |dir| - 1;
    assert p[i + 1..] == name;
  }

  /** String concatenation is associative. */
  lemma ConcatAssoc(a: string, b: string, c: string)
    ensures a + b + c == a + (b + c)
  {
  }

  /** `pathinfo` only looks at the basename. */
  lemma PathinfoByBasename(p: string, q: string)
    requires Basename(p) == Basename(q)
    ensures Extension(p) == Extension(q) && Filename(p) == Filename(q)
  {
  }

  /** A non-empty name without '/' is its own basename. */
  lemma BasenameOfPlain(p: string)
    requires p != [] && '/' !in p
    ensures Basename(p) == p
  {
    assert RTrim(p, {'/'}) == p;
    LastIndexOfSpec(p, '/');
    LastSegmentAfterSlash(p);
  }

  /** Splitting a name at a dot it ends on: the extension and filename of `stem.ext`. */
  lemma PathinfoOfDotted(stem: string, ext: string)
    requires '/' !in stem && '/' !in ext && '.' !in ext && ext != []
    ensures '/' !in stem + "." + ext
    ensures Basename(stem + "." + ext) == stem + "." + ext
    ensures Extension(stem + "." + ext) == ext
    ensures Filename(stem + "." + ext) == stem
  {
    var b := stem + "." + ext;
    assert b == stem + ['.'] + ext;
    BasenameOfPlain(b);
    LastIndexOfBefore(stem, '.', ext);
    assert b[|stem| + 1..] == ext;
    assert b[..|stem|] == stem;
  }

  /**
   * `dirname($p)`: drop trailing slashes, then the last component, then the slashes
   * before it; "." when no directory is left and "/" for the root.
   */
  function Dirname(p: string): (d: string)
    ensures p != "" ==> d != ""
  {
    if p == "" then ""
    else
      var a := RTrim(p, {'/'});
      if a == "" then "/"
      else
        var b := a[..LastIndexOf(a, '/') + 1];
        if b == "" then "."
        else
          var c := RTrim(b, {'/'});
          if c == "" then "/" else c
  }

  /** WordPress `trailingslashit`: strip trailing '/' and '\' characters, then add one '/'. */
  function TrailingSlashIt(s: string): (r: string)
    ensures |r| > 0 && r[|r| - 1] == '/'
  {
    RTrim(s, {'/', '\\'}) + "/"
  }

  /** `strtolower` on one ASCII character. */
  function LowerChar(c: char): char {
    if 'A' <= c <= 'Z' then (c as int + 32) as char else c
  }

  /** `strtolower`. */
  function ToLower(s: string): (r: string)
    ensures |r| == |s|
    ensures forall i :: 0 <= i < |s| ==> r[i] == LowerChar(s[i])
  {
    seq(|s|, i requires 0 <= i < |s| => LowerChar(s[i]))
  }

  predicate IsDigit(c: char) {
    '0' <= c <= '9'
  }

  /** `t` occurs in `s` at offset `i`. */
  predicate OccursAt(s: string, t: string, i: int) {
    0 <= i && i + |t| <= |s| && s[i..i + |t|] == t
  }

  /** An occurrence at offset i > 0 is an occurrence at i - 1 in the tail. */
  lemma OccursInTail(s: string, t: string)
    requires s != []
    ensures OccursAt(s, t, 0) <==> t <= s
    ensures forall i :: 1 <= i ==> (OccursAt(s, t, i) <==> OccursAt(s[1..], t, i - 1))
  {
    forall i | 1 <= i ensures OccursAt(s, t, i) <==> OccursAt(s[1..], t, i - 1) {
      if i + |t| <= |s| {
        assert s[1..][i - 1..i - 1 + |t|] == s[i..i + |t|];
      }
    }
  }

  /** `strpos($s, $t) !== false`: `t` occurs somewhere in `s`. */
  function Contains(s: string, t: string): (b: bool)
    ensures b <==> exists i :: OccursAt(s, t, i)
  {
    if |s| < |t| then false
    else if t <= s then
      assert OccursAt(s, t, 0);
      true
    else
      OccursInTail(s, t);
      var b := Contains(s[1..], t);
      if b then
        var i :| OccursAt(s[1..], t, i);
        assert OccursAt(s, t, i + 1);
        b
      else b
  }

  /** `str_replace($t, '', $s)`: remove every occurrence of `t`, scanning left to right. */
  function RemoveAll(s: string, t: string): (r: string)
    ensures |r| <= |s|
    decreases |s|
  {
    if t == [] || |s| < |t| then s
    else if t <= s then RemoveAll(s[|t|..], t)
    else [s[0]] + RemoveAll(s[1..], t)
  }

  /** With nothing to remove, `str_replace` returns its subject unchanged. */
  lemma {:induction false} RemoveAllAbsent(s: string, t: string)
    requires !Contains(s, t)
    ensures RemoveAll(s, t) == s
    decreases |s|
  {
    if t != [] && |s| >= |t| {
      OccursInTail(s, t);
      assert forall i :: OccursAt(s[1..], t, i) ==> OccursAt(s, t, i + 1);
      RemoveAllAbsent(s[1..], t);
    }
  }

  function DigitChar(d: nat): char
    requires d < 10
  {
    ('0' as int + d) as char
  }

  /** Decimal representation of a natural number, as PHP converts an int to a string. */
  function NatToString(n: nat): (s: string)
    ensures |s| > 0
    ensures forall i :: 0 <= i < |s| ==> IsDigit(s[i])
  {
    if n < 10 then [DigitChar(n)] else NatToString(n / 10) + [DigitChar(n % 10)]
  }

  /** `implode($sep, $parts)`. */
  function Join(parts: seq<string>, sep: string): string
  {
    if |parts| == 0 then ""
    else if |parts| == 1 then parts[0]
    else Join(parts[..|parts| - 1], sep) + sep + parts[|parts| - 1]
  }

  /** A character in no part and not in the separator is not in the joined string. */
  lemma {:induction false} JoinAvoids(parts: seq<string>, sep: string, c: char)
    requires c !in sep && forall k :: 0 <= k < |parts| ==> c !in parts[k]
    ensures c !in Join(parts, sep)
    decreases |parts|
  {
    if |parts| > 1 {
      JoinAvoids(parts[..|parts| - 1], sep, c);
    }
  }

  /** Joining a list whose last part is non-empty gives a non-empty string. */
  lemma JoinNonEmpty(parts: seq<string>, sep: string)
    requires parts != [] && parts[|parts| - 1] != ""
    ensures Join(parts, sep) != ""
  {
    var n := |parts| - 1;
    if n > 0 {
      assert Join(parts, sep)[|Join(parts, sep)| - 1] == parts[n][|parts[n]| - 1];
    }
  }

  /** Removing `t` from `a + t`, where `a` holds no first character of `t`, leaves `a`. */
  lemma {:induction false} RemoveAllTrailing(a: string, t: string)
    requires t != [] && t[0] !in a
    ensures RemoveAll(a + t, t) == a
    decreases |a|
  {
    var s := a + t;
    if a == [] {
      assert s == t;
      assert s[|t|..] == [];
    } else {
      assert s[0] == a[0];
      assert !(t <= s);
      assert s[1..] == a[1..] + t;
      RemoveAllTrailing(a[1..], t);
    }
  }

  /** Removing `p` from `p + s`, where `s` holds no `p`, leaves `s`. */
  lemma RemoveAllLeading(p: string, s: string)
    requires p != [] && !Contains(s, p)
    ensures RemoveAll(p + s, p) == s
  {
    assert p <= p + s;
    assert (p + s)[|p|..] == s;
    RemoveAllAbsent(s, p);
  }
}
