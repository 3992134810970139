/**
 * The smaller helpers of src/index.ts: word helpers (`pluralize`,
 * `camelCase`, `camelCaseToDash`), `clamp`, the colour validators,
 * `hexToRgba`, `removeDuplicates` and `checkPasswordStrength`.
 */
module Helpers {
  import opened Text
  import Regexps

  // ---------------------------------------------------------------------
  // pluralize, clamp
  // ---------------------------------------------------------------------

  /** `pluralize(word, count)`: the word, with an `s` unless the count is exactly 1. */
  function Pluralize(word: string, count: int): (r: string)
    ensures |r| >= |word| && r[..|word|] == word
    ensures count == 1 <==> r == word
    ensures count != 1 ==> |r| == |word| + 1 && r[|word|] == 's'
  {
    if count != 1 then word + "s" else word
  }

  /** `clamp(value, min, max)`: `Math.min(Math.max(value, min), max)`. */
  function Clamp(value: int, min: int, max: int): (r: int)
    ensures r <= max
    ensures min <= max ==> min <= r
    ensures min <= value <= max ==> r == value
    ensures value < min <= max ==> r == min
    ensures max < value ==> r == max
    ensures max < min ==> r == max
  {
    var low := if value < min then min else value;
    if low < max then low else max
  }

  /** Clamping twice with the same bounds changes nothing more. */
  lemma ClampIdempotent(value: int, min: int, max: int)
    ensures Clamp(Clamp(value, min, max), min, max) == Clamp(value, min, max)
  {
  }

  // ---------------------------------------------------------------------
  // camelCase
  // ---------------------------------------------------------------------

  /**
   * `camelCase(str, ucf)`: lower-case, split on runs of characters outside
   * `[a-zA-Z0-9]`, capitalise every word but the first (the first too when
   * `ucf`), join.
   */
  function CamelCase(s: string, ucf: bool): string
  {
    CamelJoin(SplitWords(Lower(s)), ucf)
  }

  lemma {:induction false} KeepAlnumLower(s: string)
    ensures KeepAlnum(Lower(s)) == Lower(KeepAlnum(s))
  {
    if s != [] {
      KeepAlnumLower(s[1..]);
      assert Lower(s)[1..] == Lower(s[1..]);
      if IsAlnum(s[0]) {
        LowerAppend([s[0]], KeepAlnum(s[1..]));
      }
    }
  }

  /**
   * The camel-cased string consists of letters and digits only, and up to
   * letter case it is exactly the letters and digits of the input, in
   * order: nothing but the separators is dropped and nothing is added.
   */
  lemma CamelCaseKeepsAlnum(s: string, ucf: bool)
    ensures AllAlnum(CamelCase(s, ucf))
    ensures Lower(CamelCase(s, ucf)) == Lower(KeepAlnum(s))
  {
    var ws := SplitWords(Lower(s));
    SplitWordsAlnum(Lower(s));
    CamelJoinProperties(ws, ucf);
    SplitWordsConcat(Lower(s));
    KeepAlnumLower(s);
    LowerIdempotent(KeepAlnum(s));
  }

  /** The first word keeps its (lower) case unless `ucf`; then it is capitalised. */
  lemma CamelCaseFirstWord(s: string, ucf: bool)
    ensures var w := SplitWords(Lower(s))[0];
      var first := if ucf then UcFirst(w) else w;
      CamelCase(s, ucf)[..|first|] == first
  {
    CamelJoinProperties(SplitWords(Lower(s)), ucf);
  }

  /**
   * At a run of separators between a word and the rest: the word is
   * lower-cased (and capitalised when `ucf`), and every word of the rest
   * is lower-cased and capitalised.
   */
  lemma CamelCaseBoundary(w: string, sep: string, rest: string, ucf: bool)
    requires AllAlnum(w)
    requires sep != [] && forall i :: 0 <= i < |sep| ==> !IsAlnum(sep[i])
    requires rest == [] || IsAlnum(rest[0])
    ensures CamelCase(w + sep + rest, ucf)
      == (if ucf then UcFirst(Lower(w)) else Lower(w)) + JoinCapitalised(SplitWords(Lower(rest)))
  {
    LowerAppend(w + sep, rest);
    LowerAppend(w, sep);
    var lw, ls, lr := Lower(w), Lower(sep), Lower(rest);
    assert AllAlnum(lw);
    assert forall i :: 0 <= i < |ls| ==> !IsAlnum(ls[i]);
    assert lr == [] || IsAlnum(lr[0]);
    SplitWordsBoundary(lw, ls, lr);
    CamelJoinCons(lw, SplitWords(lr), ucf);
  }

  /** Two words and a separator: `"FOO-bar"` becomes `"fooBar"`. */
  lemma CamelCaseTwoWords(w0: string, sep: string, w1: string, ucf: bool)
    requires AllAlnum(w0) && AllAlnum(w1) && w1 != []
    requires sep != [] && forall i :: 0 <= i < |sep| ==> !IsAlnum(sep[i])
    ensures CamelCase(w0 + sep + w1, ucf)
      == (if ucf then UcFirst(Lower(w0)) else Lower(w0)) + UcFirst(Lower(w1))
  {
    CamelCaseBoundary(w0, sep, w1, ucf);
    var l1 := Lower(w1);
    assert AllAlnum(l1);
    SplitWordsWord(l1);
    CamelJoinCons(l1, [], false);
    assert [l1] + [] == [l1];
    assert UcFirst(l1) + "" == UcFirst(l1);
  }

  // ---------------------------------------------------------------------
  // camelCaseToDash
  // ---------------------------------------------------------------------

  /** `replace(/([a-z])([A-Z])/g, '$1-$2')`: a dash between a lower and an upper letter. */
  function DashBoundaries(s: string): string
    decreases |s|
  {
    if |s| >= 2 && IsLower(s[0]) && IsUpper(s[1]) then [s[0], '-', s[1]] + DashBoundaries(s[2..])
    else if s == [] then []
    else [s[0]] + DashBoundaries(s[1..])
  }

  /** `camelCaseToDash(str)` */
  function CamelCaseToDash(s: string): (r: string)
    ensures forall i :: 0 <= i < |r| ==> !IsUpper(r[i])
  {
    Lower(DashBoundaries(s))
  }

  lemma AppendAssoc(a: string, b: string, c: string)
    ensures a + (b + c) == a + b + c
  {
  }

  lemma DropAppend(p: string, t: string, k: nat)
    requires k <= |p|
    ensures (p + t)[k..] == p[k..] + t
  {
  }

  /**
   * The scan restarts cleanly where the next character is not upper-case:
   * no match can straddle the cut.
   */
  lemma {:induction false} DashBoundariesAppend(p: string, t: string)
    requires t == [] || !IsUpper(t[0])
    ensures DashBoundaries(p + t) == DashBoundaries(p) + DashBoundaries(t)
    decreases |p|
  {
    if |p| >= 2 && IsLower(p[0]) && IsUpper(p[1]) {
      DashBoundariesAppend(p[2..], t);
      DashStepPair(p, t);
    } else if p != [] {
      DashBoundariesAppend(p[1..], t);
      DashStepOne(p, t);
    } else {
      assert p + t == t;
    }
  }

  /** The step of `DashBoundariesAppend` where `p` starts with a boundary. */
  lemma DashStepPair(p: string, t: string)
    requires |p| >= 2 && IsLower(p[0]) && IsUpper(p[1])
    requires DashBoundaries(p[2..] + t) == DashBoundaries(p[2..]) + DashBoundaries(t)
    ensures DashBoundaries(p + t) == DashBoundaries(p) + DashBoundaries(t)
  {
    var s := p + t;
    DropAppend(p, t, 2);
    assert s[0] == p[0] && s[1] == p[1];
    AppendAssoc([p[0], '-', p[1]], DashBoundaries(p[2..]), DashBoundaries(t));
  }

  /** The step of `DashBoundariesAppend` where `p` does not start with a boundary. */
  lemma DashStepOne(p: string, t: string)
    requires p != [] && !(|p| >= 2 && IsLower(p[0]) && IsUpper(p[1]))
    requires t == [] || !IsUpper(t[0])
    requires DashBoundaries(p[1..] + t) == DashBoundaries(p[1..]) + DashBoundaries(t)
    ensures DashBoundaries(p + t) == DashBoundaries(p) + DashBoundaries(t)
  {
    var s := p + t;
    DropAppend(p, t, 1);
    if |s| >= 2 {
      assert s[1] == (if |p| >= 2 then p[1] else t[0]);
    }
    assert DashBoundaries(s) == [p[0]] + DashBoundaries(p[1..] + t);
    AppendAssoc([p[0]], DashBoundaries(p[1..]), DashBoundaries(t));
  }

  /**
   * A lower-case letter followed by an upper-case one is split by a dash,
   * independently of the text on either side.
   */
  lemma CamelCaseToDashBoundary(p: string, c: char, d: char, q: string)
    requires IsLower(c) && IsUpper(d)
    ensures CamelCaseToDash(p + [c, d] + q)
      == CamelCaseToDash(p) + [ToLowerChar(c), '-', ToLowerChar(d)] + CamelCaseToDash(q)
  {
    var x, y := DashBoundaries(p), DashBoundaries(q);
    DashAt(p, c, d, q);
    LowerAppend(x, [c, '-', d] + y);
    LowerAppend([c, '-', d], y);
    LowerDashPair(c, d);
    assert Lower(x) + ([ToLowerChar(c), '-', ToLowerChar(d)] + Lower(y))
      == Lower(x) + [ToLowerChar(c), '-', ToLowerChar(d)] + Lower(y);
  }

  /** Before lower-casing: the dash goes between `c` and `d`, the two sides are scanned alone. */
  lemma DashAt(p: string, c: char, d: char, q: string)
    requires IsLower(c) && IsUpper(d)
    ensures DashBoundaries(p + [c, d] + q) == DashBoundaries(p) + ([c, '-', d] + DashBoundaries(q))
  {
    var t := [c, d] + q;
    assert p + [c, d] + q == p + t;
    DashBoundariesAppend(p, t);
    DashPair(c, d, q);
  }

  /** The pair itself is split, and the scan goes on after it. */
  lemma DashPair(c: char, d: char, q: string)
    requires IsLower(c) && IsUpper(d)
    ensures DashBoundaries([c, d] + q) == [c, '-', d] + DashBoundaries(q)
  {
    var t := [c, d] + q;
    assert t[0] == c && t[1] == d && t[2..] == q;
  }

  lemma LowerDashPair(c: char, d: char)
    ensures Lower([c, '-', d]) == [ToLowerChar(c), '-', ToLowerChar(d)]
  {
    var u := Lower([c, '-', d]);
    assert u[0] == ToLowerChar(c) && u[1] == '-' && u[2] == ToLowerChar(d);
  }

  /** The string without its dashes. */
  function Undash(s: string): string
  {
    if s == [] then [] else (if s[0] == '-' then [] else [s[0]]) + Undash(s[1..])
  }

  lemma {:induction false} UndashAppend(a: string, b: string)
    ensures Undash(a + b) == Undash(a) + Undash(b)
  {
    if a != [] {
      assert (a + b)[1..] == a[1..] + b;
      UndashAppend(a[1..], b);
    } else {
      assert a + b == b;
    }
  }

  /** Only dashes are inserted. */
  lemma {:induction false} DashBoundariesUndash(s: string)
    ensures Undash(DashBoundaries(s)) == Undash(s)
    decreases |s|
  {
    if |s| >= 2 && IsLower(s[0]) && IsUpper(s[1]) {
      DashBoundariesUndash(s[2..]);
      UndashAppend([s[0], '-', s[1]], DashBoundaries(s[2..]));
      UndashAppend([s[0], s[1]], s[2..]);
      assert s == [s[0], s[1]] + s[2..];
    } else if s != [] {
      DashBoundariesUndash(s[1..]);
      UndashAppend([s[0]], DashBoundaries(s[1..]));
      UndashAppend([s[0]], s[1..]);
      assert s == [s[0]] + s[1..];
    }
  }

  /** A lower letter directly followed by an upper one. */
  predicate HasBoundary(s: string)
  {
    exists i :: 0 <= i < |s| - 1 && IsLower(s[i]) && IsUpper(s[i + 1])
  }

  lemma {:induction false} NoBoundaryUnchanged(s: string)
    requires !HasBoundary(s)
    ensures DashBoundaries(s) == s
    decreases |s|
  {
    if s != [] {
      assert !HasBoundary(s[1..]) by {
        forall i | 0 <= i < |s[1..]| - 1
          ensures !(IsLower(s[1..][i]) && IsUpper(s[1..][i + 1]))
        {
          assert s[1..][i] == s[i + 1] && s[1..][i + 1] == s[i + 2];
        }
      }
      NoBoundaryUnchanged(s[1..]);
    }
  }

  lemma {:induction false} UndashLower(s: string)
    ensures Undash(Lower(s)) == Lower(Undash(s))
  {
    if s != [] {
      UndashLower(s[1..]);
      assert Lower(s)[1..] == Lower(s[1..]);
      if s[0] != '-' {
        LowerAppend([s[0]], Undash(s[1..]));
      }
    }
  }

  /**
   * Dash-casing lower-cases the string and inserts dashes and nothing
   * else; a string without a lower-then-upper pair is only lower-cased.
   */
  lemma CamelCaseToDashProperties(s: string)
    ensures Undash(CamelCaseToDash(s)) == Lower(Undash(s))
    ensures !HasBoundary(s) ==> CamelCaseToDash(s) == Lower(s)
  {
    DashBoundariesUndash(s);
    UndashLower(DashBoundaries(s));
    if !HasBoundary(s) {
      NoBoundaryUnchanged(s);
    }
  }

  // ---------------------------------------------------------------------
  // Colour validators
  // ---------------------------------------------------------------------

  /** `isColor(color)`: a hex, `rgb`/`rgba` or `hsl` colour string. */
  predicate IsColor(s: string)
  {
    Regexps.IsHexColor(s) || Regexps.IsRgbaColor(s) || Regexps.IsHslColor(s)
  }

  /** The three colour languages are disjoint: each colour string is of exactly one kind. */
  lemma ColorKindsDisjoint(s: string)
    ensures !(Regexps.IsHexColor(s) && Regexps.IsRgbaColor(s))
    ensures !(Regexps.IsHexColor(s) && Regexps.IsHslColor(s))
    ensures !(Regexps.IsRgbaColor(s) && Regexps.IsHslColor(s))
  {
    if Regexps.IsRgbaColor(s) {
      RgbaStartsWithR(s);
    }
    if Regexps.IsHslColor(s) {
      HslStartsWithH(s);
    }
  }

  lemma RgbaStartsWithR(s: string)
    requires Regexps.IsRgbaColor(s)
    ensures s != [] && s[0] == 'r'
  {
    assert Regexps.ParseRgbHead(s).Some?;
    if |s| >= 5 && s[..5] == "rgba(" {
      assert s[0] == s[..5][0];
    } else {
      assert s[0] == s[..4][0];
    }
  }

  lemma HslStartsWithH(s: string)
    requires Regexps.IsHslColor(s)
    ensures s != [] && s[0] == 'h'
  {
    assert s[0] == s[..4][0];
  }

  // ---------------------------------------------------------------------
  // hexToRgba
  // ---------------------------------------------------------------------

  /** `replace(/^#/, '')` */
  function StripHash(h: string): (r: string)
    ensures h != [] && h[0] == '#' ==> r == h[1..]
    ensures (h == [] || h[0] != '#') ==> r == h
  {
    if h != [] && h[0] == '#' then h[1..] else h
  }

  /** `split('').map(char => char + char).join('')` */
  function Doubled(h: string): (r: string)
    ensures |r| == 2 * |h|
  {
    if h == [] then [] else [h[0], h[0]] + Doubled(h[1..])
  }

  /** A shorthand of three digits is expanded; anything else is kept. */
  function Expand(h: string): string
  {
    if |h| == 3 then Doubled(h) else h
  }

  /**
   * `parseInt(h, 16)`: leading white space skipped, an optional sign, an
   * optional `0x`/`0X`, then the longest run of hexadecimal digits; NaN
   * (None) when that run is empty.
   */
  function ParseInt16(h: string): (r: Option<int>)
    ensures r.Some? && h != [] && IsHexDigit(h[0]) ==> r.value >= 0
  {
    var t := TrimStart(h);
    var negative := t != [] && t[0] == '-';
    var v := DigitsAfterPrefix(t);
    var n := HexRun(v);
    if n == 0 then None
    else
      var m: int := HexValue(v[..n]);
      if negative then Some(-m) else Some(m)
  }

  /** What `parseInt(_, 16)` reads digits from, once the sign and `0x`/`0X` are skipped. */
  function DigitsAfterPrefix(t: string): string
  {
    var u := if t != [] && (t[0] == '-' || t[0] == '+') then t[1..] else t;
    if |u| >= 2 && u[0] == '0' && (u[1] == 'x' || u[1] == 'X') then u[2..] else u
  }

  lemma PlainHexDigits(h: string)
    requires h != [] && AllHexDigits(h)
    ensures TrimStart(h) == h && DigitsAfterPrefix(h) == h
  {
    assert !IsSpace(h[0]);
    assert h[0] != '-' && h[0] != '+';
    assert !(|h| >= 2 && h[0] == '0' && (h[1] == 'x' || h[1] == 'X'));
  }

  /**
   * The 32-bit pattern the shift operators see: `ToInt32`, which maps NaN
   * to 0 and keeps an integer modulo 2^32.
   */
  function Int32Bits(v: Option<int>): (b: nat)
    ensures b < 0x1_0000_0000
  {
    if v.None? then 0 else v.value % 0x1_0000_0000
  }

  /** Red, green and blue channels. */
  datatype Rgb = Rgb(r: nat, g: nat, b: nat)

  /**
   * `(bigint >> 16) & 255`, `(bigint >> 8) & 255` and `bigint & 255`: bits
   * 16 to 23, 8 to 15 and 0 to 7 of the 32-bit pattern (an arithmetic
   * shift of a negative value keeps those bits).
   */
  function Channels(bits: nat): (c: Rgb)
    ensures c.r < 256 && c.g < 256 && c.b < 256
  {
    Rgb((bits / 0x10000) % 256, (bits / 0x100) % 256, bits % 256)
  }

  /** The channels `hexToRgba` computes for `hex`. */
  function HexChannels(hex: string): Rgb
  {
    Channels(Int32Bits(ParseInt16(Expand(StripHash(hex)))))
  }

  /** `` `rgba(${r}, ${g}, ${b}, ${alpha})` `` with `alpha` already rendered. */
  function RgbaString(c: Rgb, alpha: string): string
  {
    "rgba(" + NatToDecimal(c.r) + ", " + NatToDecimal(c.g) + ", " + NatToDecimal(c.b) + ", " + alpha + ")"
  }

  /** `hexToRgba(hex, alpha)`; `alpha` is the text of the alpha number. */
  method HexToRgba(hex: string, alpha: string) returns (s: string)
    ensures s == RgbaString(HexChannels(hex), alpha)
  {
    var h := hex;
    if h != [] && h[0] == '#' {
      h := h[1..];
    }
    if |h| == 3 {
      h := Doubled(h);
    }
    var bigint := ParseInt16(h);
    var bits := Int32Bits(bigint);
    var r := (bits / 0x10000) % 256;
    var g := (bits / 0x100) % 256;
    var b := bits % 256;
    s := "rgba(" + NatToDecimal(r) + ", " + NatToDecimal(g) + ", " + NatToDecimal(b) + ", " + alpha + ")";
  }

  lemma {:induction false} HexRunAll(s: string)
    requires AllHexDigits(s)
    ensures HexRun(s) == |s|
  {
    if s != [] {
      HexRunAll(s[1..]);
    }
  }

  /** A run of hexadecimal digits is read whole by `parseInt(h, 16)`. */
  lemma ParseInt16Digits(h: string)
    requires h != [] && AllHexDigits(h)
    ensures ParseInt16(h) == Some(HexValue(h))
  {
    PlainHexDigits(h);
    HexRunAll(h);
    var v := DigitsAfterPrefix(TrimStart(h));
    assert v == h && v[..HexRun(v)] == h;
  }

  /** Three bytes put together and taken apart. */
  lemma BytesOf(a: nat, b: nat, c: nat)
    requires a < 256 && b < 256 && c < 256
    ensures Channels(a * 0x10000 + b * 0x100 + c) == Rgb(a, b, c)
  {
    var x := a * 0x10000 + b * 0x100 + c;
    assert x / 0x10000 == a;
    assert x / 0x100 == a * 0x100 + b;
  }

  lemma SixDigitValue(h: string)
    requires |h| == 6 && AllHexDigits(h)
    ensures AllHexDigits(h[..2]) && AllHexDigits(h[2..4]) && AllHexDigits(h[4..])
    ensures HexValue(h) == HexValue(h[..2]) * 0x10000 + HexValue(h[2..4]) * 0x100 + HexValue(h[4..])
  {
    var x, y, z := h[..2], h[2..4], h[4..];
    assert h == x + (y + z);
    HexValueAppend(y, z);
    HexValueAppend(x, y + z);
    Pow16Values();
  }

  lemma StripOptionalHash(hex: string, h: string)
    requires h != [] && IsHexDigit(h[0])
    requires hex == h || hex == "#" + h
    ensures StripHash(hex) == h
  {
    if hex != h {
      assert hex[1..] == h;
    }
  }

  /** Six digits are read as one number, with no expansion. */
  lemma SixDigitBits(h: string)
    requires |h| == 6 && AllHexDigits(h)
    ensures Int32Bits(ParseInt16(Expand(h))) == HexValue(h)
  {
    assert Expand(h) == h;
    ParseInt16Digits(h);
    SixDigitBound(h);
    Int32BitsSmall(HexValue(h));
  }

  lemma Int32BitsSmall(x: nat)
    requires x < 0x1_0000_0000
    ensures Int32Bits(Some(x)) == x
  {
  }

  lemma SixDigitBound(h: string)
    requires |h| == 6 && AllHexDigits(h)
    ensures HexValue(h) < 0x100_0000
  {
    HexValueBound(h);
    Pow16Values();
  }

  lemma Pow16Values()
    ensures Pow16(2) == 0x100 && Pow16(4) == 0x1_0000 && Pow16(6) == 0x100_0000
  {
    assert Pow16(1) == 16;
    assert Pow16(3) == 0x1000;
    assert Pow16(5) == 0x10_0000;
  }

  /** `#RRGGBB` or `RRGGBB`: each channel is the value of its two digits. */
  lemma SixDigitChannels(hex: string, h: string)
    requires |h| == 6 && AllHexDigits(h)
    requires hex == h || hex == "#" + h
    ensures AllHexDigits(h[..2]) && AllHexDigits(h[2..4]) && AllHexDigits(h[4..])
    ensures HexChannels(hex) == Rgb(HexValue(h[..2]), HexValue(h[2..4]), HexValue(h[4..]))
  {
    StripOptionalHash(hex, h);
    assert Expand(StripHash(hex)) == h;
    ExpandedChannels(hex, h);
  }

  /** Once the digits are expanded to six, each channel is the value of its pair. */
  lemma ExpandedChannels(hex: string, e: string)
    requires |e| == 6 && AllHexDigits(e)
    requires Expand(StripHash(hex)) == e
    ensures AllHexDigits(e[..2]) && AllHexDigits(e[2..4]) && AllHexDigits(e[4..])
    ensures HexChannels(hex) == Rgb(HexValue(e[..2]), HexValue(e[2..4]), HexValue(e[4..]))
  {
    SixDigitBits(e);
    SixDigitBytes(e);
  }

  lemma SixDigitBytes(h: string)
    requires |h| == 6 && AllHexDigits(h)
    ensures AllHexDigits(h[..2]) && AllHexDigits(h[2..4]) && AllHexDigits(h[4..])
    ensures Channels(HexValue(h)) == Rgb(HexValue(h[..2]), HexValue(h[2..4]), HexValue(h[4..]))
  {
    SixDigitValue(h);
    HexValueBound(h[..2]);
    HexValueBound(h[2..4]);
    HexValueBound(h[4..]);
    Pow16Values();
    BytesOf(HexValue(h[..2]), HexValue(h[2..4]), HexValue(h[4..]));
  }

  lemma PairValue(c: char)
    requires IsHexDigit(c)
    ensures HexValue([c, c]) == 17 * HexDigitValue(c)
  {
    assert [c, c][..1] == [c];
    assert [c][..0] == [];
    assert HexValue([c]) == HexDigitValue(c);
  }

  lemma DoubledThree(h: string)
    requires |h| == 3
    ensures Doubled(h) == [h[0], h[0], h[1], h[1], h[2], h[2]]
  {
    var u := [h[1], h[2]];
    assert h[1..] == u && u[1..] == [h[2]] && [h[2]][1..] == [];
    assert Doubled([h[2]]) == [h[2], h[2]];
    assert Doubled(u) == [h[1], h[1]] + [h[2], h[2]];
  }

  lemma DoubledPairs(h: string)
    requires |h| == 3 && AllHexDigits(h)
    ensures var d := Doubled(h);
      AllHexDigits(d) && d[..2] == [h[0], h[0]] && d[2..4] == [h[1], h[1]] && d[4..] == [h[2], h[2]]
  {
    DoubledThree(h);
  }

  /** `#RGB` or `RGB`: each digit is doubled, so a channel is 17 times the digit. */
  lemma ThreeDigitChannels(hex: string, h: string)
    requires |h| == 3 && AllHexDigits(h)
    requires hex == h || hex == "#" + h
    ensures HexChannels(hex) ==
      Rgb(17 * HexDigitValue(h[0]), 17 * HexDigitValue(h[1]), 17 * HexDigitValue(h[2]))
  {
    StripOptionalHash(hex, h);
    var d := Doubled(h);
    DoubledPairs(h);
    assert Expand(StripHash(hex)) == d;
    ExpandedChannels(hex, d);
    PairValue(h[0]);
    PairValue(h[1]);
    PairValue(h[2]);
  }

  /** Without a hexadecimal digit `parseInt` gives NaN, and every channel is 0. */
  lemma NoDigitsIsBlack(hex: string)
    requires ParseInt16(Expand(StripHash(hex))).None?
    ensures HexChannels(hex) == Rgb(0, 0, 0)
  {
    assert Int32Bits(ParseInt16(Expand(StripHash(hex)))) == 0;
    ChannelsOfZero();
  }

  lemma ChannelsOfZero()
    ensures Channels(0) == Rgb(0, 0, 0)
  {
  }

  lemma ShortDecimal(n: nat)
    requires n < 1000
    ensures 1 <= |NatToDecimal(n)| <= 3
  {
    if n >= 10 {
      var m := n / 10;
      if m >= 10 {
        assert |NatToDecimal(m / 10)| == 1;
      }
    }
  }

  /** The pieces of an `rgba(...)` colour that `hexToRgba` writes. */
  function ChannelParts(c: Rgb, a: Regexps.Alpha): Regexps.RgbaParts
  {
    Regexps.RgbaParts(true,
      Regexps.Field("", NatToDecimal(c.r), ""), Regexps.Field(" ", NatToDecimal(c.g), ""),
      Regexps.Field(" ", NatToDecimal(c.b), ""), Some(Regexps.AlphaGroup(" ", a, "")))
  }

  /** The string `hexToRgba` builds, read as the pieces of an `rgba(...)` colour. */
  lemma RgbaStringParts(c: Rgb, a: Regexps.Alpha)
    ensures RgbaString(c, Regexps.AlphaText(a)) == Regexps.RenderRgba(ChannelParts(c, a))
  {
    var r, g, b, t := NatToDecimal(c.r), NatToDecimal(c.g), NatToDecimal(c.b), Regexps.AlphaText(a);
    JoinRgba(r, g, b, t);
  }

  lemma JoinRgba(r: string, g: string, b: string, t: string)
    ensures "rgba(" + r + ", " + g + ", " + b + ", " + t + ")" ==
      "rgba(" + (("" + (r + ("" + ""))) + ("," + ((" " + (g + ("" + ""))) +
      ("," + ((" " + (b + ("" + ""))) + ("," + ((" " + (t + "")) + ")")))))))
  {
  }

  /** Channels below 256 are written with one to three digits, as the pattern wants. */
  lemma ChannelPartsOk(c: Rgb, a: Regexps.Alpha)
    requires c.r < 256 && c.g < 256 && c.b < 256
    requires Regexps.AlphaOk(a)
    ensures Regexps.RgbaOk(ChannelParts(c, a))
  {
    ShortDecimal(c.r);
    ShortDecimal(c.g);
    ShortDecimal(c.b);
    assert Regexps.AllSpace(" ");
  }

  /**
   * Whatever `hex` is, `hexToRgba` produces a string that `isRgbaColor`
   * accepts, provided the alpha is written as `rgbaColorRegex` wants it.
   */
  lemma HexToRgbaIsRgbaColor(hex: string, a: Regexps.Alpha)
    requires Regexps.AlphaOk(a)
    ensures Regexps.IsRgbaColor(RgbaString(HexChannels(hex), Regexps.AlphaText(a)))
  {
    var c := HexChannels(hex);
    ChannelPartsOk(c, a);
    RgbaStringParts(c, a);
    Regexps.RgbaComplete(ChannelParts(c, a));
  }

  // ---------------------------------------------------------------------
  // removeDuplicates
  // ---------------------------------------------------------------------

  /** The position of the first occurrence of `x` in `s`. */
  function FirstIndex<T(==)>(s: seq<T>, x: T): (i: nat)
    requires x in s
    ensures i < |s| && s[i] == x && x !in s[..i]
  {
    if s[0] == x then 0
    else
      var j := FirstIndex(s[1..], x);
      assert s[..j + 1] == [s[0]] + s[1..][..j];
      j + 1
  }

  /** `x` occurs among the first `k` elements exactly when its first occurrence is before `k`. */
  lemma FirstIndexBelow<T>(s: seq<T>, x: T, k: nat)
    requires x in s && k <= |s|
    ensures x in s[..k] <==> FirstIndex(s, x) < k
  {
    var i := FirstIndex(s, x);
    if i < k {
      assert s[..k][i] == x;
    } else {
      assert s[..k] == s[..i][..k];
    }
  }

  /**
   * `removeDuplicates(array)`: the accumulator receives each element that
   * it does not already include. The result holds every element of the
   * array once, in the order of first occurrence; the array is only read.
   */
  method RemoveDuplicates<T(==)>(a: array<T>) returns (r: seq<T>)
    ensures forall i, j :: 0 <= i < j < |r| ==> r[i] != r[j]
    ensures forall x :: x in r <==> x in a[..]
    ensures forall i, j :: 0 <= i < j < |r| ==> FirstIndex(a[..], r[i]) < FirstIndex(a[..], r[j])
  {
    r := [];
    var k := 0;
    while k < a.Length
      invariant 0 <= k <= a.Length
      invariant forall i, j :: 0 <= i < j < |r| ==> r[i] != r[j]
      invariant forall x :: x in r <==> x in a[..k]
      invariant forall x :: x in r ==> x in a[..] && FirstIndex(a[..], x) < k
      invariant forall i, j :: 0 <= i < j < |r| ==> FirstIndex(a[..], r[i]) < FirstIndex(a[..], r[j])
    {
      var x := a[k];
      assert a[..k + 1] == a[..k] + [x];
      if x !in r {
        FirstIndexBelow(a[..], x, k);
        assert a[..][k] == x;
        FirstIndexBelow(a[..], x, k + 1);
        r := r + [x];
      }
      k := k + 1;
    }
    assert a[..k] == a[..];
  }

  // ---------------------------------------------------------------------
  // checkPasswordStrength
  // ---------------------------------------------------------------------

  /** The character classes the password is tested against. */
  datatype CharClass = LowerCase | UpperCase | Digit | Special

  predicate InClass(c: char, cls: CharClass)
  {
    match cls
    case LowerCase => IsLower(c)
    case UpperCase => IsUpper(c)
    case Digit => IsDigit(c)
    case Special => !IsAlnum(c)
  }

  /** `/[a-z]/.test(p)`, `/[A-Z]/.test(p)`, `/\d/.test(p)`, `/[^A-Za-z0-9]/.test(p)`: a scan for one character of the class. */
  predicate Contains(p: string, cls: CharClass)
  {
    p != [] && (InClass(p[0], cls) || Contains(p[1..], cls))
  }

  lemma {:induction false} ContainsSome(p: string, cls: CharClass)
    ensures Contains(p, cls) <==> exists k :: 0 <= k < |p| && InClass(p[k], cls)
  {
    if p != [] {
      ContainsSome(p[1..], cls);
      if exists k :: 0 <= k < |p| && InClass(p[k], cls) {
        var k :| 0 <= k < |p| && InClass(p[k], cls);
        if k > 0 {
          assert InClass(p[1..][k - 1], cls);
        }
      }
      if exists k :: 0 <= k < |p[1..]| && InClass(p[1..][k], cls) {
        var k :| 0 <= k < |p[1..]| && InClass(p[1..][k], cls);
        assert InClass(p[k + 1], cls);
      }
    }
  }

  /** The five criteria, in the order they are tried. */
  predicate Meets(p: string, criterion: nat)
  {
    match criterion
    case 0 => |p| >= 8
    case 1 => Contains(p, LowerCase)
    case 2 => Contains(p, UpperCase)
    case 3 => Contains(p, Digit)
    case 4 => Contains(p, Special)
    case _ => false
  }

  /** The suggestion given when a criterion is not met. */
  function Advice(criterion: nat): string
  {
    match criterion
    case 0 => "Use at least 8 characters"
    case 1 => "Add lowercase letters"
    case 2 => "Add uppercase letters"
    case 3 => "Include numbers"
    case _ => "Add special characters (e.g. !, @, #)"
  }

  /** The point a criterion earns. */
  function Point(p: string, criterion: nat): nat
  {
    if Meets(p, criterion) then 1 else 0
  }

  /** The suggestion a criterion adds. */
  function Miss(p: string, criterion: nat): seq<string>
  {
    if Meets(p, criterion) then [] else [Advice(criterion)]
  }

  /** The score: how many criteria the password meets. */
  function Score(p: string): (n: nat)
    ensures n <= 5
  {
    Point(p, 0) + Point(p, 1) + Point(p, 2) + Point(p, 3) + Point(p, 4)
  }

  /** The suggestions, one for each criterion missed, in order. */
  function Suggestions(p: string): (ms: seq<string>)
    ensures Score(p) + |ms| == 5
  {
    Miss(p, 0) + Miss(p, 1) + Miss(p, 2) + Miss(p, 3) + Miss(p, 4)
  }

  lemma AdviceDistinct(c: nat, d: nat)
    requires c < 5 && d < 5 && c != d
    ensures Advice(c) != Advice(d)
  {
    assert |Advice(c)| != |Advice(d)| || Advice(c)[4] != Advice(d)[4];
  }

  lemma MissOther(p: string, c: nat, d: nat)
    requires c < 5 && d < 5 && c != d
    ensures Advice(c) !in Miss(p, d)
  {
    AdviceDistinct(c, d);
  }

  /** Each suggestion is given exactly when its criterion fails. */
  lemma SuggestionsAdvice(p: string, c: nat)
    requires c < 5
    ensures Advice(c) in Suggestions(p) <==> !Meets(p, c)
  {
    forall d | d < 5 && d != c
      ensures Advice(c) !in Miss(p, d)
    {
      MissOther(p, c, d);
    }
    assert Advice(c) in Miss(p, c) <==> !Meets(p, c);
  }

  lemma EveryAdvice(p: string)
    ensures forall c :: 0 <= c < 5 ==> (Advice(c) in Suggestions(p) <==> !Meets(p, c))
  {
    forall c | 0 <= c < 5
      ensures Advice(c) in Suggestions(p) <==> !Meets(p, c)
    {
      SuggestionsAdvice(p, c);
    }
  }

  /** The label for a score. */
  function Label(score: nat): string
  {
    if score <= 2 then "Weak" else if score == 3 then "Moderate" else if score == 4 then "Strong" else "Excellent"
  }

  /**
   * One test of the password: a point when criterion `c` is met, its
   * advice pushed onto the suggestions when it is not.
   */
  method Tally(p: string, c: nat, score: nat, suggestions: seq<string>)
    returns (score': nat, suggestions': seq<string>)
    ensures score' == score + Point(p, c) && suggestions' == suggestions + Miss(p, c)
  {
    if Meets(p, c) {
      score' := score + 1;
      suggestions' := suggestions;
    } else {
      score' := score;
      suggestions' := suggestions + [Advice(c)];
    }
  }

  /**
   * `checkPasswordStrength(password)`: one point per criterion met, one
   * suggestion per criterion missed, and a label for the score.
   */
  method CheckPasswordStrength(p: string) returns (score: nat, result: string, suggestions: seq<string>)
    ensures score == Score(p) && suggestions == Suggestions(p)
    ensures score <= 5 && score + |suggestions| == 5
    ensures forall c :: 0 <= c < 5 ==> (Advice(c) in suggestions <==> !Meets(p, c))
    ensures score <= 2 ==> result == "Weak"
    ensures score == 3 ==> result == "Moderate"
    ensures score == 4 ==> result == "Strong"
    ensures score == 5 ==> result == "Excellent"
  {
    suggestions := [];
    score := 0;
    score, suggestions := Tally(p, 0, score, suggestions);
    score, suggestions := Tally(p, 1, score, suggestions);
    score, suggestions := Tally(p, 2, score, suggestions);
    score, suggestions := Tally(p, 3, score, suggestions);
    score, suggestions := Tally(p, 4, score, suggestions);
    assert [] + Miss(p, 0) == Miss(p, 0);
    result := Label(score);
    EveryAdvice(p);
  }
}
