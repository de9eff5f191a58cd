/**
 * The plugin's settings (namespace TrustOptimize\Admin, class Settings): one
 * WordPress option, `trust_optimize_options`, holding a key/value array, read with
 * a three-tier fallback (stored value, caller's default, built-in default).
 */
module Admin {
  import opened Optional
  import PhpArray

  /** A PHP value that can sit in the options array. */
  datatype Value = Null | Bool(b: bool) | Int(i: int) | Str(s: string) | IntList(items: seq<int>)

  /** PHP's `(bool)` cast. */
  function Truthy(v: Value): bool {
    match v
    case Null => false
    case Bool(b) => b
    case Int(i) => i != 0
    case Str(s) => s != "" && s != "0"
    case IntList(xs) => xs != []
  }

  /** PHP's largest integer on a 64-bit build. */
  const PhpIntMax: int := 0x7fff_ffff_ffff_ffff

  /** PHP's smallest integer on a 64-bit build. */
  const PhpIntMin: int := -0x8000_0000_0000_0000

  predicate IsDecimal(c: char) {
    '0' <= c <= '9'
  }

  predicate AllDecimal(d: string) {
    forall k :: 0 <= k < |d| ==> IsDecimal(d[k])
  }

  /** The number of decimal digits at the start of `s`. */
  function DigitRun(s: string): (n: nat)
    ensures n <= |s|
    ensures AllDecimal(s[..n])
    ensures n == |s| || !IsDecimal(s[n])
  {
    if s != [] && IsDecimal(s[0]) then
      var n := 1 + DigitRun(s[1..]);
      assert s[..n] == [s[0]] + s[1..][..n - 1];
      n
    else 0
  }

  /** The value of a string of decimal digits (a non-digit counts as 0). */
  function DigitsValue(d: string): nat {
    if d == [] then 0
    else 10 * DigitsValue(d[..|d| - 1]) + (if IsDecimal(d[|d| - 1]) then d[|d| - 1] as int - '0' as int else 0)
  }

  function Pow10(n: nat): (p: nat)
    ensures p >= 1
  {
    if n == 0 then 1 else 10 * Pow10(n - 1)
  }

  /** `m · 10^e`, truncated toward zero when `e` is negative. */
  function Scale(m: nat, e: int): nat
    decreases if e >= 0 then e else -e
  {
    if e > 0 then 10 * Scale(m, e - 1)
    else if e < 0 then Scale(m, e + 1) / 10
    else m
  }

  /** A non-negative exponent multiplies exactly. */
  lemma {:induction false} ScaleUp(m: nat, e: nat)
    ensures Scale(m, e) == m * Pow10(e)
  {
    if e > 0 {
      ScaleUp(m, e - 1);
      assert m * Pow10(e) == 10 * (m * Pow10(e - 1));
    }
  }

  /** An integer saturated at PHP's 64-bit bounds. */
  function Saturate(v: int): (r: int)
    ensures PhpIntMin <= r <= PhpIntMax
    ensures PhpIntMin <= v <= PhpIntMax ==> r == v
    ensures v > PhpIntMax ==> r == PhpIntMax
    ensures v < PhpIntMin ==> r == PhpIntMin
  {
    if v > PhpIntMax then PhpIntMax else if v < PhpIntMin then PhpIntMin else v
  }

  /**
   * The exponent (`e` or `E`, an optional sign, at least one digit) at the start of
   * `t`: its value and its length, or (0, 0) when `t` does not start with one.
   */
  function ExponentPart(t: string): (r: (int, nat))
    ensures r.1 <= |t|
  {
    if |t| >= 2 && (t[0] == 'e' || t[0] == 'E') && IsDecimal(t[1]) then
      var n := DigitRun(t[1..]);
      (DigitsValue(t[1..1 + n]), 1 + n)
    else if |t| >= 3 && (t[0] == 'e' || t[0] == 'E') && (t[1] == '+' || t[1] == '-') && IsDecimal(t[2]) then
      var n := DigitRun(t[2..]);
      var v := DigitsValue(t[2..2 + n]);
      var signed: int := if t[1] == '-' then -(v as int) else v;
      (signed, 2 + n)
    else (0, 0)
  }

  /**
   * The unsigned numeric prefix of `s`, truncated toward zero: digits, an optional
   * `.` and fraction digits (at least one digit in all), then an optional exponent;
   * 0 when `s` does not start with such a number.
   */
  function UnsignedPrefix(s: string): nat {
    var i := DigitRun(s);
    var dot := i < |s| && s[i] == '.';
    var f := if dot then DigitRun(s[i + 1..]) else 0;
    var j := if dot then i + 1 + f else i;
    if i == 0 && f == 0 then 0
    else
      var mantissa := if dot then s[..i] + s[i + 1..j] else s[..i];
      var exponent := ExponentPart(s[j..]);
      Scale(DigitsValue(mantissa), exponent.0 - f)
  }

  /**
   * PHP 8's `(int)` cast of a string: leading whitespace, an optional sign, then the
   * longest numeric prefix (integer, decimal fraction or exponent form) truncated
   * toward zero and saturated at the 64-bit bounds; 0 when there is no such prefix.
   */
  function StringToInt(s: string): (r: int)
    ensures PhpIntMin <= r <= PhpIntMax
  {
    if s != [] && s[0] as int in {9, 10, 11, 12, 13, 32} then StringToInt(s[1..])
    else if s != [] && s[0] == '-' then Saturate(0 - UnsignedPrefix(s[1..]))
    else if s != [] && s[0] == '+' then Saturate(UnsignedPrefix(s[1..]))
    else Saturate(UnsignedPrefix(s))
  }

  /** The digit run of a string is pinned by where its first non-digit sits. */
  lemma {:induction false} DigitRunOf(d: string, rest: string)
    requires AllDecimal(d)
    requires rest == [] || !IsDecimal(rest[0])
    ensures DigitRun(d + rest) == |d|
  {
    if d != [] {
      assert (d + rest)[1..] == d[1..] + rest;
      DigitRunOf(d[1..], rest);
    }
  }

  /** A string that starts with a digit casts to its unsigned numeric prefix. */
  lemma StartsWithDigit(s: string)
    requires s != [] && IsDecimal(s[0])
    ensures StringToInt(s) == Saturate(UnsignedPrefix(s))
    ensures StringToInt("-" + s) == Saturate(0 - UnsignedPrefix(s))
  {
    hide UnsignedPrefix, Saturate;
    assert ("-" + s)[1..] == s;
  }

  /** Digits not followed by `.`, `e`, `E` or a digit are an integer prefix. */
  lemma UnsignedInteger(d: string, rest: string)
    requires d != [] && AllDecimal(d)
    requires rest == [] || (!IsDecimal(rest[0]) && rest[0] != '.' && rest[0] != 'e' && rest[0] != 'E')
    ensures UnsignedPrefix(d + rest) == DigitsValue(d)
  {
    hide DigitRun, DigitsValue;
    var s := d + rest;
    DigitRunOf(d, rest);
    assert s[..|d|] == d;
    assert s[|d|..] == rest;
  }

  /** An exponent `e` followed by digits only is read whole. */
  lemma ExponentDigits(x: string)
    requires x != [] && AllDecimal(x)
    ensures ExponentPart("e" + x) == (DigitsValue(x), 1 + |x|)
  {
    hide DigitRun, DigitsValue;
    var t := "e" + x;
    DigitRunOf(x, []);
    assert t[1..] == x + [];
    assert x + [] == x;
    assert t[1..1 + |x|] == x;
  }

  /** Digits, `e`, digits: the mantissa scaled by the exponent. */
  lemma UnsignedExponent(d: string, x: string)
    requires d != [] && AllDecimal(d)
    requires x != [] && AllDecimal(x)
    ensures UnsignedPrefix(d + "e" + x) == Scale(DigitsValue(d), DigitsValue(x))
  {
    hide DigitRun, DigitsValue, Scale, ExponentPart;
    var tail := "e" + x;
    var s := d + tail;
    assert d + "e" + x == s;
    DigitRunOf(d, tail);
    assert s[|d|] == 'e';
    assert s[..|d|] == d;
    assert s[|d|..] == tail;
    ExponentDigits(x);
  }

  /**
   * The unsigned prefix of a string with a decimal point after its leading digits:
   * mantissa `m` (the digits around the point), exponent read from the rest `t`.
   */
  lemma DottedPrefix(s: string, i: nat, f: nat, m: string, t: string)
    requires i < |s| && DigitRun(s) == i && s[i] == '.'
    requires DigitRun(s[i + 1..]) == f && i + f > 0
    requires s[..i] + s[i + 1..i + 1 + f] == m && s[i + 1 + f..] == t
    ensures UnsignedPrefix(s) == Scale(DigitsValue(m), ExponentPart(t).0 - f)
  {
    hide DigitsValue, Scale, ExponentPart;
  }

  /** `d . f` followed by `t`: the joined mantissa, the exponent read from `t`. */
  lemma FractionPrefix(d: string, f: string, t: string)
    requires d != [] && AllDecimal(d)
    requires f != [] && AllDecimal(f)
    requires t == [] || !IsDecimal(t[0])
    ensures UnsignedPrefix(d + "." + f + t) == Scale(DigitsValue(d + f), ExponentPart(t).0 - |f|)
  {
    hide DigitRun, DigitsValue, Scale, ExponentPart, UnsignedPrefix, AllDecimal;
    var s := d + ("." + (f + t));
    assert d + "." + f + t == s;
    DigitRunOf(d, "." + (f + t));
    assert s[|d|] == '.';
    assert s[|d| + 1..] == f + t;
    DigitRunOf(f, t);
    var j := |d| + 1 + |f|;
    assert s[..|d|] == d;
    assert s[|d| + 1..j] == f by {
      assert s[|d| + 1..j] == (f + t)[..|f|];
    }
    assert s[j..] == t by {
      assert s[j..] == (f + t)[|f|..];
    }
    DottedPrefix(s, |d|, |f|, d + f, t);
  }

  /** Digits, `.`, digits, `e`, digits: the joined mantissa scaled by the exponent less the fraction length. */
  lemma UnsignedFraction(d: string, f: string, x: string)
    requires d != [] && AllDecimal(d)
    requires f != [] && AllDecimal(f)
    requires x != [] && AllDecimal(x)
    ensures UnsignedPrefix(d + "." + f + "e" + x) == Scale(DigitsValue(d + f), DigitsValue(x) - |f|)
  {
    hide DigitRun, DigitsValue, Scale, ExponentPart, UnsignedPrefix, AllDecimal;
    FractionPrefix(d, f, "e" + x);
    assert d + "." + f + "e" + x == d + "." + f + ("e" + x);
    ExponentDigits(x);
  }

  /**
   * A run of digits not followed by `.`, `e`, `E` or a digit casts to its decimal
   * value saturated at PHP_INT_MAX; with a `-` sign, to its negation saturated at
   * PHP_INT_MIN.
   */
  lemma IntegerStringToInt(d: string, rest: string)
    requires d != [] && AllDecimal(d)
    requires rest == [] || (!IsDecimal(rest[0]) && rest[0] != '.' && rest[0] != 'e' && rest[0] != 'E')
    ensures StringToInt(d + rest) == Saturate(DigitsValue(d))
    ensures StringToInt("-" + d + rest) == Saturate(0 - DigitsValue(d))
  {
    hide StringToInt, UnsignedPrefix, DigitsValue, Saturate;
    StartsWithDigit(d + rest);
    UnsignedInteger(d, rest);
    assert "-" + d + rest == "-" + (d + rest);
  }

  /** `d e x` (digits, `e`, digits) casts to `d · 10^x`, saturated. */
  lemma ExponentStringToInt(d: string, x: string)
    requires d != [] && AllDecimal(d)
    requires x != [] && AllDecimal(x)
    ensures StringToInt(d + "e" + x) == Saturate(DigitsValue(d) * Pow10(DigitsValue(x)))
  {
    hide StringToInt, UnsignedPrefix, DigitsValue, Saturate, Scale, Pow10;
    StartsWithDigit(d + "e" + x);
    UnsignedExponent(d, x);
    ScaleUp(DigitsValue(d), DigitsValue(x));
  }

  /**
   * `d . f e x` casts to the mantissa `d f` scaled by `10^(x - |f|)`, truncated toward
   * zero and saturated.
   */
  lemma FractionStringToInt(d: string, f: string, x: string)
    requires d != [] && AllDecimal(d)
    requires f != [] && AllDecimal(f)
    requires x != [] && AllDecimal(x)
    ensures StringToInt(d + "." + f + "e" + x) == Saturate(Scale(DigitsValue(d + f), DigitsValue(x) - |f|))
  {
    hide StringToInt, UnsignedPrefix, DigitsValue, Saturate, Scale;
    StartsWithDigit(d + "." + f + "e" + x);
    UnsignedFraction(d, f, x);
  }

  /** The PHP 8 numeric-string examples: "1e2" is 100, "8.5e1" is 85, "90abc" is 90. */
  lemma NumericStringExamples()
    ensures StringToInt("1e2") == 100
    ensures StringToInt("8.5e1") == 85
    ensures StringToInt("90abc") == 90
  {
    hide StringToInt;
    ExponentStringToInt("1", "2");
    assert "1" + "e" + "2" == "1e2";
    FractionStringToInt("8", "5", "1");
    assert "8" + "." + "5" + "e" + "1" == "8.5e1";
    assert DigitsValue("85") == 85 by {
      assert "85"[..1] == "8";
    }
    IntegerStringToInt("90", "abc");
    assert "90" + "abc" == "90abc";
    assert DigitsValue("90") == 90 by {
      assert "90"[..1] == "9";
    }
  }

  /** An integer string beyond PHP_INT_MAX casts to PHP_INT_MAX, and its negation to PHP_INT_MIN. */
  lemma SaturationExample()
    ensures StringToInt("99999999999999999999") == PhpIntMax
    ensures StringToInt("-99999999999999999999") == PhpIntMin
  {
    hide StringToInt, DigitsValue, Pow10;
    var d := "99999999999999999999";
    IntegerStringToInt(d, "");
    assert d + "" == d;
    assert "-" + d + "" == "-99999999999999999999";
    NinesValue(d);
    assert |d| == 20;
    Pow10Twenty();
  }

  /** `10^(a + b) == 10^a · 10^b`. */
  lemma {:induction false} Pow10Sum(a: nat, b: nat)
    ensures Pow10(a + b) == Pow10(a) * Pow10(b)
  {
    if a > 0 {
      Pow10Sum(a - 1, b);
      assert Pow10(a + b) == 10 * Pow10(a - 1 + b);
    }
  }

  /** `10^20`, which exceeds the 64-bit range. */
  lemma Pow10Twenty()
    ensures Pow10(20) == 100_000_000_000_000_000_000
  {
    Pow10Sum(10, 10);
    Pow10Sum(5, 5);
  }

  /** A run of nines is at least `10^(n-1)`. */
  lemma {:induction false} NinesValue(d: string)
    requires forall k :: 0 <= k < |d| ==> d[k] == '9'
    ensures DigitsValue(d) + 1 == Pow10(|d|)
  {
    if d != [] {
      NinesValue(d[..|d| - 1]);
    }
  }

  /** PHP's `(int)` cast. */
  function ToInt(v: Value): int {
    match v
    case Null => 0
    case Bool(b) => if b then 1 else 0
    case Int(i) => i
    case Str(s) => StringToInt(s)
    case IntList(xs) => if xs == [] then 0 else 1
  }

  /** The responsive breakpoint widths, ascending. */
  const Breakpoints: seq<int> := [320, 480, 768, 1024, 1280, 1440, 1920]

  /** The built-in defaults table, in its declaration order. */
  const Defaults: PhpArray.Entries<Value> := [
    ("enable_adaptive_images", Int(1)),
    ("image_quality", Int(100)),
    ("breakpoints", IntList(Breakpoints)),
    ("lazy_load", Int(1)),
    ("convert_to_webp", Int(1)),
    ("convert_to_avif", Int(1))
  ]

  /** A run of `update($key, $value)` calls, one after the other, on the stored array. */
  function UpdateAll(d: PhpArray.Entries<Value>, pairs: PhpArray.Entries<Value>): PhpArray.Entries<Value>
    decreases |pairs|
  {
    if pairs == [] then d
    else UpdateAll(PhpArray.Put(d, pairs[0].0, pairs[0].1), pairs[1..])
  }

  /** Updates with distinct keys, none of which `d` holds yet. */
  predicate Fresh(d: PhpArray.Entries<Value>, pairs: PhpArray.Entries<Value>) {
    && PhpArray.UniqueKeys(pairs)
    && forall i :: 0 <= i < |pairs| ==> pairs[i].0 !in PhpArray.Keys(d)
  }

  /** After the first fresh update, the remaining updates are still fresh. */
  lemma FreshTail(d: PhpArray.Entries<Value>, pairs: PhpArray.Entries<Value>)
    requires pairs != [] && Fresh(d, pairs)
    ensures PhpArray.Put(d, pairs[0].0, pairs[0].1) == d + [pairs[0]]
    ensures Fresh(d + [pairs[0]], pairs[1..])
  {
    hide PhpArray.Put, PhpArray.Keys;
    var k, v := pairs[0].0, pairs[0].1;
    assert pairs[0] == (k, v);
    PhpArray.PutAbsent(d, k, v);
    var d' := d + [(k, v)];
    assert PhpArray.Keys(d') == PhpArray.Keys(d) + [k];
    var rest := pairs[1..];
    forall i | 0 <= i < |rest|
      ensures rest[i].0 !in PhpArray.Keys(d')
    {
      assert rest[i] == pairs[i + 1];
    }
    forall i, j | 0 <= i < j < |rest|
      ensures rest[i].0 != rest[j].0
    {
      assert rest[i] == pairs[i + 1] && rest[j] == pairs[j + 1];
    }
  }

  /**
   * Updates with keys the array does not yet hold append their pairs in call order:
   * the stored array keeps the order in which the keys were first written.
   */
  lemma {:induction false} UpdateAllFresh(d: PhpArray.Entries<Value>, pairs: PhpArray.Entries<Value>)
    requires Fresh(d, pairs)
    ensures UpdateAll(d, pairs) == d + pairs
    decreases |pairs|
  {
    if pairs != [] {
      hide UpdateAll, PhpArray.Put, PhpArray.Keys, Fresh;
      var d', rest := d + [pairs[0]], pairs[1..];
      FreshTail(d, pairs);
      UpdateAllFirst(d, pairs);
      UpdateAllFresh(d', rest);
      assert d' + rest == d + pairs by {
        assert pairs == [pairs[0]] + rest;
      }
    }
  }

  /** The first update of a run is applied first. */
  lemma UpdateAllFirst(d: PhpArray.Entries<Value>, pairs: PhpArray.Entries<Value>)
    requires pairs != []
    ensures UpdateAll(d, pairs) == UpdateAll(PhpArray.Put(d, pairs[0].0, pairs[0].1), pairs[1..])
  {
  }

  /** An empty run of updates changes nothing. */
  lemma UpdateAllEmpty(d: PhpArray.Entries<Value>)
    ensures UpdateAll(d, []) == d
  {
  }

  /** The defaults table names each key once. */
  lemma DefaultsUnique()
    ensures PhpArray.UniqueKeys(Defaults)
  {
    assert Defaults[4].0[11] != Defaults[5].0[11];
  }

  /**
   * Writing every default with `update`, last key first, onto a missing option stores
   * the same pairs as the defaults table but in reverse order, so the array differs
   * from the defaults table under `===` and a following `reset()` reports a change.
   */
  lemma ReversedUpdatesDiffer()
    ensures var reversed := [Defaults[5], Defaults[4], Defaults[3], Defaults[2], Defaults[1], Defaults[0]];
      && UpdateAll([], reversed) == reversed
      && reversed != Defaults
  {
    hide UpdateAll, PhpArray.Put;
    var reversed := [Defaults[5], Defaults[4], Defaults[3], Defaults[2], Defaults[1], Defaults[0]];
    DefaultsUnique();
    assert forall i :: 0 <= i < 6 ==> reversed[i] == Defaults[5 - i];
    assert PhpArray.Keys<Value>([]) == [];
    assert Fresh([], reversed);
    UpdateAllFresh([], reversed);
    assert [] + reversed == reversed;
    assert reversed[0].0[0] != Defaults[0].0[0];
  }

  class Settings {
    /** The `trust_optimize_options` row of the options table; None while it does not exist. */
    var stored: Option<PhpArray.Entries<Value>>

    constructor (stored: Option<PhpArray.Entries<Value>>)
      ensures this.stored == stored
    {
      this.stored := stored;
    }

    /** `get_option('trust_optimize_options', array())`. */
    function Options(): PhpArray.Entries<Value>
      reads this
    {
      stored.GetOr([])
    }

    /** A key is set when it is present with a non-null value (PHP's `isset`). */
    predicate IsSet(key: string)
      reads this
    {
      PhpArray.Get(Options(), key).Some? && PhpArray.Get(Options(), key).value != Null
    }

    /**
     * `get($key, $default)`: the stored value if set, else the caller's default if
     * non-null, else the built-in default, else null for an unknown key.
     */
    function Get(key: string, default: Value): (r: Value)
      reads this
      ensures IsSet(key) ==> Some(r) == PhpArray.Get(Options(), key)
      ensures !IsSet(key) && default != Null ==> r == default
      ensures !IsSet(key) && default == Null ==> Some(r) == PhpArray.Get(Defaults, key) || (r == Null && PhpArray.Get(Defaults, key).None?)
      ensures r == Null <==> !IsSet(key) && default == Null && key !in PhpArray.Keys(Defaults)
    {
      if IsSet(key) then PhpArray.Get(Options(), key).value
      else if default != Null then default
      else
        var g := PhpArray.Get(Defaults, key);
        if g.Some? then PhpArray.GetIn(Defaults, key); g.value else Null
    }

    /**
     * `get_all()`: the stored array, or the defaults table while none is stored, with
     * its keys in the stored order.
     */
    function GetAll(): (r: PhpArray.Entries<Value>)
      reads this
      ensures stored.None? ==> r == Defaults
      ensures stored.Some? ==> r == stored.value
      ensures forall k :: PhpArray.Get(r, k).Some? && PhpArray.Get(r, k).value != Null && stored.Some? ==> Get(k, Null) == PhpArray.Get(r, k).value
    {
      stored.GetOr(Defaults)
    }

    /**
     * `update($key, $value)`: assign one key of the stored array, in place when the key
     * exists and appended otherwise. The result is `update_option`'s: false when the
     * new array is identical (`===`: same pairs in the same order) to the stored one.
     */
    method Update(key: string, value: Value) returns (changed: bool)
      modifies this
      ensures stored == Some(PhpArray.Put(old(Options()), key, value))
      ensures PhpArray.Keys(Options()) == if key in PhpArray.Keys(old(Options())) then PhpArray.Keys(old(Options())) else PhpArray.Keys(old(Options())) + [key]
      ensures changed <==> old(stored) != stored
      ensures forall k :: k != key ==> (IsSet(k) <==> old(IsSet(k)))
      ensures forall k, d :: k != key ==> Get(k, d) == old(Get(k, d))
      ensures value != Null ==> forall d :: Get(key, d) == value
    {
      var options := Options();
      options := PhpArray.Put(options, key, value);
      changed := stored != Some(options);
      stored := Some(options);
    }

    /**
     * `reset()`: store the defaults table. It reports a change unless the stored array
     * is identical to the defaults table, key order included.
     */
    method Reset() returns (changed: bool)
      modifies this
      ensures stored == Some(Defaults)
      ensures changed <==> old(stored) != Some(Defaults)
      ensures GetAll() == Defaults
      ensures forall k :: k in PhpArray.Keys(Defaults) ==> Some(Get(k, Null)) == PhpArray.Get(Defaults, k)
    {
      changed := stored != Some(Defaults);
      stored := Some(Defaults);
    }

    /**
     * On a missing option, `update` of every default, last key first, followed by
     * `reset()`: the reset reports a change, because the stored array holds the
     * defaults in the reverse order.
     */
    method UpdateReversedThenReset() returns (changed: bool)
      requires stored.None?
      modifies this
      ensures changed
      ensures stored == Some(Defaults)
    {
      var reversed := [Defaults[5], Defaults[4], Defaults[3], Defaults[2], Defaults[1], Defaults[0]];
      var i := 0;
      while i < |reversed|
        invariant 0 <= i <= |reversed|
        invariant i > 0 ==> stored.Some?
        invariant UpdateAll(Options(), reversed[i..]) == UpdateAll([], reversed)
      {
        UpdateAllFirst(Options(), reversed[i..]);
        assert reversed[i..][1..] == reversed[i + 1..];
        var _ := Update(reversed[i].0, reversed[i].1);
        i := i + 1;
      }
      UpdateAllEmpty(Options());
      ReversedUpdatesDiffer();
      changed := Reset();
    }

    /**
     * `add_default_settings()` (plugin activation): store the defaults only when the
     * option is missing or falsy (an empty array); stored settings are never overwritten.
     */
    method AddDefaultSettings()
      modifies this
      ensures old(stored).Some? && old(stored).value != [] ==> stored == old(stored)
      ensures old(stored).None? || old(stored).value == [] ==> stored == Some(Defaults)
    {
      if stored.None? || stored.value == [] {
        stored := Some(Defaults);
      }
    }
  }
}
