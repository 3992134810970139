/**
 * The three colour-string recognisers of src/regexps.ts, written as
 * deterministic parsers.  Each parser returns the pieces it recognised;
 * rendering those pieces gives back the input (soundness), and every
 * well-formed set of pieces renders to a string the parser accepts
 * (completeness).  Together these say that the recogniser accepts exactly
 * the strings of the regular expression's language.
 */
module Regexps {
  import opened Text

  // ---------------------------------------------------------------------
  // hexColorRegex = /^[0-9a-fA-F]{3}$|^[0-9a-fA-F]{6}$/
  // ---------------------------------------------------------------------

  /** Exactly three or six hexadecimal digits, either case, no `#`. */
  predicate IsHexColor(s: string)
  {
    (|s| == 3 || |s| == 6) && AllHexDigits(s)
  }

  /** The recogniser wants bare digits: a leading `#` or a fourth digit is refused. */
  lemma HexColorExamples()
    ensures IsHexColor("fff") && IsHexColor("FfA0b9")
    ensures !IsHexColor("#fff") && !IsHexColor("ffff") && !IsHexColor("ggg")
  {
    assert "#fff"[0] == '#' && !IsHexDigit('#');
    assert "ggg"[0] == 'g' && !IsHexDigit('g');
    assert |"ffff"| == 4;
  }

  // ---------------------------------------------------------------------
  // A numeric field: `\s*(\d{1,3})<unit>\s*`
  // ---------------------------------------------------------------------

  /** White space, one to three digits, a fixed unit (`""` or `"%"`), white space. */
  datatype Field = Field(pre: string, digits: string, post: string)

  predicate AllSpace(s: string) { forall i :: 0 <= i < |s| ==> IsSpace(s[i]) }

  predicate FieldOk(f: Field)
  {
    AllSpace(f.pre) && AllSpace(f.post) &&
    1 <= |f.digits| <= 3 && AllDigits(f.digits)
  }

  function RenderField(f: Field, unit: string): string
  {
    f.pre + (f.digits + (unit + f.post))
  }

  /** May `t` follow a field? (Then the field's extent is unambiguous.) */
  predicate Stops(t: string)
  {
    t == [] || (!IsSpace(t[0]) && !IsDigit(t[0]))
  }

  /** Splits off the longest white-space prefix. */
  function SplitSpace(t: string): (r: (string, string))
    ensures AllSpace(r.0) && t == r.0 + r.1
    ensures r.1 == [] || !IsSpace(r.1[0])
  {
    var n := SpaceRun(t);
    assert t == t[..n] + t[n..];
    (t[..n], t[n..])
  }

  /** Splits off the longest digit prefix. */
  function SplitDigits(t: string): (r: (string, string))
    ensures AllDigits(r.0) && t == r.0 + r.1
    ensures r.1 == [] || !IsDigit(r.1[0])
  {
    var n := DigitRun(t);
    assert t == t[..n] + t[n..];
    (t[..n], t[n..])
  }

  lemma {:induction false} SpaceRunOf(w: string, t: string)
    requires AllSpace(w) && (t == [] || !IsSpace(t[0]))
    ensures SpaceRun(w + t) == |w|
  {
    if w != [] {
      assert (w + t)[1..] == w[1..] + t;
      SpaceRunOf(w[1..], t);
    }
  }

  lemma SplitSpaceOf(w: string, t: string)
    requires AllSpace(w) && (t == [] || !IsSpace(t[0]))
    ensures SplitSpace(w + t) == (w, t)
  {
    SpaceRunOf(w, t);
    assert (w + t)[..|w|] == w && (w + t)[|w|..] == t;
  }

  lemma SplitDigitsOf(d: string, t: string)
    requires AllDigits(d) && (t == [] || !IsDigit(t[0]))
    ensures SplitDigits(d + t) == (d, t)
  {
    DigitRunOf(d, t);
    assert (d + t)[..|d|] == d && (d + t)[|d|..] == t;
  }

  /** Consumes one field at the front of `t`; returns it and what follows. */
  function ParseField(t: string, unit: string): (r: Option<(Field, string)>)
    ensures r.Some? ==> FieldOk(r.value.0) &&
                        t == RenderField(r.value.0, unit) + r.value.1
  {
    var s1 := SplitSpace(t);
    var s2 := SplitDigits(s1.1);
    var digits, t2 := s2.0, s2.1;
    if |digits| < 1 || |digits| > 3 || |t2| < |unit| || t2[..|unit|] != unit then None
    else
      var t3 := t2[|unit|..];
      assert t2 == unit + t3;
      var s3 := SplitSpace(t3);
      FieldAssoc(t, s1.0, s1.1, digits, t2, unit, t3, s3.0, s3.1);
      Some((Field(s1.0, digits, s3.0), s3.1))
  }

  lemma FieldAssoc(t: string, pre: string, t1: string, digits: string, t2: string,
                   unit: string, t3: string, post: string, rest: string)
    requires t == pre + t1 && t1 == digits + t2 && t2 == unit + t3 && t3 == post + rest
    ensures t == pre + (digits + (unit + post)) + rest
  {
  }

  /** A well-formed field is read back from its rendering, whatever follows it. */
  lemma FieldRoundTrip(f: Field, unit: string, rest: string)
    requires FieldOk(f) && Stops(rest)
    requires unit == "" || unit == "%"
    ensures ParseField(RenderField(f, unit) + rest, unit) == Some((f, rest))
  {
    var w := f.post + rest;
    var v := unit + w;
    var u := f.digits + v;
    assert RenderField(f, unit) + rest == f.pre + u;
    assert !IsSpace(u[0]);
    SplitSpaceOf(f.pre, u);
    assert v == [] || !IsDigit(v[0]);
    SplitDigitsOf(f.digits, v);
    SplitSpaceOf(f.post, rest);
    FieldFromParts(f.pre + u, unit, f, u, w, rest);
  }

  lemma FieldFromParts(t: string, unit: string, f: Field, u: string, w: string, rest: string)
    requires SplitSpace(t) == (f.pre, u)
    requires SplitDigits(u) == (f.digits, unit + w)
    requires 1 <= |f.digits| <= 3
    requires SplitSpace(w) == (f.post, rest)
    ensures ParseField(t, unit) == Some((f, rest))
  {
    assert (unit + w)[..|unit|] == unit && (unit + w)[|unit|..] == w;
  }

  // ---------------------------------------------------------------------
  // rgbaColorRegex =
  //   /^rgba?\(\s*(\d{1,3})\s*,\s*(\d{1,3})\s*,\s*(\d{1,3})\s*(,\s*((0|1|0?\.\d+)\s*))?\)$/
  // ---------------------------------------------------------------------

  /** The alpha alternatives `0`, `1` and `0?\.\d+`. */
  datatype Alpha = Zero | One | Fraction(leadingZero: bool, digits: string)

  predicate AlphaOk(a: Alpha)
  {
    a.Fraction? ==> |a.digits| >= 1 && AllDigits(a.digits)
  }

  function AlphaText(a: Alpha): string
  {
    match a
    case Zero => "0"
    case One => "1"
    case Fraction(z, d) => (if z then "0." else ".") + d
  }

  /** `,\s*(alpha)\s*` after the third number, without its comma. */
  datatype AlphaGroup = AlphaGroup(pre: string, alpha: Alpha, post: string)

  predicate AlphaGroupOk(g: AlphaGroup)
  {
    AllSpace(g.pre) && AlphaOk(g.alpha) && AllSpace(g.post)
  }

  function RenderAlphaGroup(g: AlphaGroup): string
  {
    g.pre + (AlphaText(g.alpha) + g.post)
  }

  /** Reads one of the alpha alternatives at the front of `t`. */
  function ParseAlpha(t: string): (r: Option<(Alpha, string)>)
    ensures r.Some? ==> AlphaOk(r.value.0) && t == AlphaText(r.value.0) + r.value.1
  {
    if t == [] then None
    else if t[0] == '0' && |t| >= 2 && t[1] == '.' then
      assert t == "0." + t[2..];
      ParseFraction(t[2..], true)
    else if t[0] == '.' then
      assert t == "." + t[1..];
      ParseFraction(t[1..], false)
    else if t[0] == '0' then
      assert t == "0" + t[1..];
      Some((Zero, t[1..]))
    else if t[0] == '1' then
      assert t == "1" + t[1..];
      Some((One, t[1..]))
    else None
  }

  /** The digits `\d+` after the point of a fraction; `z` says whether a `0` led it. */
  function ParseFraction(u: string, z: bool): (r: Option<(Alpha, string)>)
    ensures r.Some? ==> AlphaOk(r.value.0) && (if z then "0." else ".") + u == AlphaText(r.value.0) + r.value.1
  {
    var sp := SplitDigits(u);
    if sp.0 == [] then None
    else
      assert (if z then "0." else ".") + u == (if z then "0." else ".") + sp.0 + sp.1;
      Some((Fraction(z, sp.0), sp.1))
  }

  function ParseAlphaGroup(t: string): (r: Option<(AlphaGroup, string)>)
    ensures r.Some? ==> AlphaGroupOk(r.value.0) && t == RenderAlphaGroup(r.value.0) + r.value.1
  {
    var (pre, t1) := SplitSpace(t);
    var pa := ParseAlpha(t1);
    if pa.None? then None
    else
      var alpha, t2 := pa.value.0, pa.value.1;
      var (post, rest) := SplitSpace(t2);
      GroupAssoc(t, pre, t1, AlphaText(alpha), t2, post, rest);
      Some((AlphaGroup(pre, alpha, post), rest))
  }

  lemma GroupAssoc(t: string, pre: string, t1: string, mid: string, t2: string, post: string, rest: string)
    requires t == pre + t1 && t1 == mid + t2 && t2 == post + rest
    ensures t == pre + (mid + post) + rest
  {
  }

  /** What may follow an alpha without extending it. */
  predicate AlphaStops(t: string)
  {
    t == [] || (!IsDigit(t[0]) && t[0] != '.')
  }

  lemma AlphaRoundTrip(a: Alpha, rest: string)
    requires AlphaOk(a) && AlphaStops(rest)
    ensures ParseAlpha(AlphaText(a) + rest) == Some((a, rest))
  {
    var t := AlphaText(a) + rest;
    match a
    case Zero =>
      assert t == "0" + rest;
    case One =>
      assert t == "1" + rest;
    case Fraction(z, d) =>
      FractionRoundTrip(z, d, rest);
      if z {
        assert t == "0." + (d + rest);
        assert t[2..] == d + rest;
      } else {
        assert t == "." + (d + rest);
        assert t[1..] == d + rest;
      }
  }

  lemma FractionRoundTrip(z: bool, d: string, rest: string)
    requires |d| >= 1 && AllDigits(d) && AlphaStops(rest)
    ensures ParseFraction(d + rest, z) == Some((Fraction(z, d), rest))
  {
    SplitDigitsOf(d, rest);
  }

  lemma AlphaGroupRoundTrip(g: AlphaGroup, rest: string)
    requires AlphaGroupOk(g) && Stops(rest) && AlphaStops(rest)
    ensures ParseAlphaGroup(RenderAlphaGroup(g) + rest) == Some((g, rest))
  {
    var w := g.post + rest;
    var u := AlphaText(g.alpha) + w;
    assert RenderAlphaGroup(g) + rest == g.pre + u;
    assert u[0] == AlphaText(g.alpha)[0];
    SplitSpaceOf(g.pre, u);
    assert AlphaStops(w);
    AlphaRoundTrip(g.alpha, w);
    SplitSpaceOf(g.post, rest);
  }

  /** The pieces of an `rgb(...)` / `rgba(...)` string. */
  datatype RgbaParts = RgbaParts(withA: bool, red: Field, green: Field, blue: Field, alpha: Option<AlphaGroup>)

  predicate RgbaOk(p: RgbaParts)
  {
    FieldOk(p.red) && FieldOk(p.green) && FieldOk(p.blue) &&
    (p.alpha.Some? ==> AlphaGroupOk(p.alpha.value))
  }

  function RgbaTail(alpha: Option<AlphaGroup>): string
  {
    if alpha.Some? then "," + (RenderAlphaGroup(alpha.value) + ")") else ")"
  }

  /** Three fields separated by commas, then `tail`. */
  function RenderFields(f1: Field, f2: Field, f3: Field, u2: string, u3: string, tail: string): string
  {
    RenderField(f1, "") + ("," + (RenderField(f2, u2) + ("," + (RenderField(f3, u3) + tail))))
  }

  function RenderRgba(p: RgbaParts): string
  {
    RgbHead(p.withA) + RenderFields(p.red, p.green, p.blue, "", "", RgbaTail(p.alpha))
  }

  /** Reads `,` followed by one field. */
  function ParseCommaField(t: string, unit: string): (r: Option<(Field, string)>)
    ensures r.Some? ==> FieldOk(r.value.0) && t == "," + (RenderField(r.value.0, unit) + r.value.1)
  {
    if t == [] || t[0] != ',' then None
    else
      var r1 := ParseField(t[1..], unit);
      if r1.None? then None
      else
        CommaThen(t, RenderField(r1.value.0, unit) + r1.value.1);
        r1
  }

  lemma CommaThen(t: string, x: string)
    requires t != [] && t[0] == ',' && t[1..] == x
    ensures t == "," + x
  {
    assert t == [t[0]] + t[1..];
  }

  lemma CommaFieldRoundTrip(f: Field, unit: string, rest: string)
    requires FieldOk(f) && Stops(rest)
    requires unit == "" || unit == "%"
    ensures ParseCommaField("," + (RenderField(f, unit) + rest), unit) == Some((f, rest))
  {
    var t := "," + (RenderField(f, unit) + rest);
    assert t[1..] == RenderField(f, unit) + rest;
    FieldRoundTrip(f, unit, rest);
  }

  /** Reads `field , field , field` with the given units; returns the fields and what follows. */
  function ParseFields(t: string, u2: string, u3: string): (r: Option<(Field, Field, Field, string)>)
    ensures r.Some? ==> FieldOk(r.value.0) && FieldOk(r.value.1) && FieldOk(r.value.2) &&
                        t == RenderFields(r.value.0, r.value.1, r.value.2, u2, u3, r.value.3)
  {
    var p1 := ParseField(t, "");
    if p1.None? then None
    else
      var p2 := ParseCommaField(p1.value.1, u2);
      if p2.None? then None
      else
        var p3 := ParseCommaField(p2.value.1, u3);
        if p3.None? then None
        else Some((p1.value.0, p2.value.0, p3.value.0, p3.value.1))
  }

  lemma FieldsRoundTrip(f1: Field, f2: Field, f3: Field, u2: string, u3: string, tail: string)
    requires FieldOk(f1) && FieldOk(f2) && FieldOk(f3)
    requires (u2 == "" || u2 == "%") && (u3 == "" || u3 == "%")
    requires Stops(tail)
    ensures ParseFields(RenderFields(f1, f2, f3, u2, u3, tail), u2, u3) == Some((f1, f2, f3, tail))
  {
    var r2 := "," + (RenderField(f3, u3) + tail);
    var r1 := "," + (RenderField(f2, u2) + r2);
    FieldRoundTrip(f1, "", r1);
    CommaFieldRoundTrip(f2, u2, r2);
    CommaFieldRoundTrip(f3, u3, tail);
    FieldsFromParts(RenderField(f1, "") + r1, u2, u3, f1, r1, f2, r2, f3, tail);
  }

  lemma FieldsFromParts(t: string, u2: string, u3: string,
                        f1: Field, r1: string, f2: Field, r2: string, f3: Field, r3: string)
    requires ParseField(t, "") == Some((f1, r1))
    requires ParseCommaField(r1, u2) == Some((f2, r2))
    requires ParseCommaField(r2, u3) == Some((f3, r3))
    ensures ParseFields(t, u2, u3) == Some((f1, f2, f3, r3))
  {
  }

  /** The opening `rgba(` or `rgb(`. */
  function RgbHead(withA: bool): string
  {
    if withA then "rgba(" else "rgb("
  }

  /** Reads `rgb(` or `rgba(`; says which, and returns what follows. */
  function ParseRgbHead(s: string): (r: Option<(bool, string)>)
    ensures r.Some? ==> s == RgbHead(r.value.0) + r.value.1
  {
    if |s| >= 5 && s[..5] == "rgba(" then
      assert s == s[..5] + s[5..];
      Some((true, s[5..]))
    else if |s| >= 4 && s[..4] == "rgb(" then
      assert s == s[..4] + s[4..];
      Some((false, s[4..]))
    else None
  }

  /** Reads `)` or `,` alpha-group `)` up to the end of the string. */
  function ParseRgbaTail(t: string): (r: Option<Option<AlphaGroup>>)
    ensures r.Some? ==> (r.value.Some? ==> AlphaGroupOk(r.value.value)) && t == RgbaTail(r.value)
  {
    if t == ")" then Some(None)
    else if t == [] || t[0] != ',' then None
    else
      var pg := ParseAlphaGroup(t[1..]);
      if pg.None? || pg.value.1 != ")" then None
      else
        TailOfGroup(t, pg.value.0);
        Some(Some(pg.value.0))
  }

  lemma TailOfGroup(t: string, g: AlphaGroup)
    requires t != [] && t[0] == ',' && t[1..] == RenderAlphaGroup(g) + ")"
    ensures t == RgbaTail(Some(g))
  {
    assert t == "," + t[1..];
  }

  function ParseRgba(s: string): (r: Option<RgbaParts>)
    ensures r.Some? ==> RgbaOk(r.value) && RenderRgba(r.value) == s
  {
    var head := ParseRgbHead(s);
    if head.None? then None
    else
      var fs := ParseFields(head.value.1, "", "");
      if fs.None? then None
      else
        var (red, green, blue, tail) := fs.value;
        var alpha := ParseRgbaTail(tail);
        if alpha.None? then None
        else Some(RgbaParts(head.value.0, red, green, blue, alpha.value))
  }

  /** `rgbaColorRegex.test(s)` */
  predicate IsRgbaColor(s: string)
  {
    ParseRgba(s).Some?
  }

  lemma RgbHeadRoundTrip(withA: bool, body: string)
    ensures ParseRgbHead(RgbHead(withA) + body) == Some((withA, body))
  {
    var s := RgbHead(withA) + body;
    if withA {
      assert s[..5] == "rgba(" && s[5..] == body;
    } else {
      assert s[3] == '(';
      assert s[..4] == "rgb(" && s[4..] == body;
    }
  }

  lemma RgbaTailRoundTrip(alpha: Option<AlphaGroup>)
    requires alpha.Some? ==> AlphaGroupOk(alpha.value)
    ensures ParseRgbaTail(RgbaTail(alpha)) == Some(alpha)
  {
    if alpha.Some? {
      var t := RgbaTail(alpha);
      assert t[1..] == RenderAlphaGroup(alpha.value) + ")";
      AlphaGroupRoundTrip(alpha.value, ")");
    }
  }

  /** Every well-formed `rgb`/`rgba` string is recognised, with the same pieces. */
  lemma RgbaComplete(p: RgbaParts)
    requires RgbaOk(p)
    ensures ParseRgba(RenderRgba(p)) == Some(p)
  {
    var tail := RgbaTail(p.alpha);
    var body := RenderFields(p.red, p.green, p.blue, "", "", tail);
    RgbHeadRoundTrip(p.withA, body);
    FieldsRoundTrip(p.red, p.green, p.blue, "", "", tail);
    RgbaTailRoundTrip(p.alpha);
  }

  /** No range checks on the channels. */
  lemma RgbaAcceptsOutOfRange(s: string)
    requires s == "rgb(999,999,999)"
    ensures IsRgbaColor(s)
  {
    var f := Field("", "999", "");
    var p := RgbaParts(false, f, f, f, None);
    assert RenderRgba(p) == s;
    RgbaComplete(p);
  }

  /** `rgba` may omit the alpha. */
  lemma RgbaWithoutAlpha(s: string)
    requires s == "rgba(1, 2, 3)"
    ensures IsRgbaColor(s)
  {
    var p := RgbaParts(true, Field("", "1", ""), Field(" ", "2", ""), Field(" ", "3", ""), None);
    assert RenderRgba(p) == s;
    RgbaComplete(p);
  }

  /** `rgb` may carry an alpha. */
  lemma RgbWithAlpha(s: string)
    requires s == "rgb(1,2,3,0.5)"
    ensures IsRgbaColor(s)
  {
    var p := RgbaParts(false, Field("", "1", ""), Field("", "2", ""), Field("", "3", ""),
                       Some(AlphaGroup("", Fraction(true, "5"), "")));
    assert RenderRgba(p) == s;
    RgbaComplete(p);
  }

  /** An alpha may start with the point: `.5`. */
  lemma RgbaBareFraction(s: string)
    requires s == "rgba(255,255,255,.5)"
    ensures IsRgbaColor(s)
  {
    var f := Field("", "255", "");
    var p := RgbaParts(true, f, f, f, Some(AlphaGroup("", Fraction(false, "5"), "")));
    BareFractionText(s);
    RgbaComplete(p);
  }

  lemma BareFractionText(s: string)
    requires s == "rgba(255,255,255,.5)"
    ensures s == RenderRgba(RgbaParts(true, Field("", "255", ""), Field("", "255", ""), Field("", "255", ""),
                                      Some(AlphaGroup("", Fraction(false, "5"), ""))))
  {
    assert s == "rgba(" + ("255" + ("," + ("255" + ("," + ("255" + ",.5)")))));
  }

  /**
   * An alpha written `1.` followed by anything (so `1.0`, `1.5`) is refused:
   * after the alternative `1` only white space and `)` may follow.
   */
  lemma RgbaRejectsOnePoint(withA: bool, f1: Field, f2: Field, f3: Field, tail: string)
    requires FieldOk(f1) && FieldOk(f2) && FieldOk(f3)
    requires |tail| >= 3 && tail[0] == ',' && tail[1] == '1' && tail[2] == '.'
    ensures !IsRgbaColor(RgbHead(withA) + RenderFields(f1, f2, f3, "", "", tail))
  {
    var body := RenderFields(f1, f2, f3, "", "", tail);
    RgbHeadRoundTrip(withA, body);
    FieldsRoundTrip(f1, f2, f3, "", "", tail);
    TailOneThenPoint(tail);
    RgbaRejectedByTail(RgbHead(withA) + body, withA, body, f1, f2, f3, tail);
  }

  lemma RgbaRejectedByTail(s: string, withA: bool, body: string, f1: Field, f2: Field, f3: Field, tail: string)
    requires ParseRgbHead(s) == Some((withA, body))
    requires ParseFields(body, "", "") == Some((f1, f2, f3, tail))
    requires ParseRgbaTail(tail) == None
    ensures !IsRgbaColor(s)
  {
  }

  lemma TailOneThenPoint(t: string)
    requires |t| >= 3 && t[0] == ',' && t[1] == '1' && t[2] == '.'
    ensures ParseRgbaTail(t) == None
  {
    AlphaOneThenPoint(t[1..]);
    assert t[1..][1..][0] == '.';
  }

  /** `1` followed by a point reads as the alternative `1`, leaving the point unread. */
  lemma AlphaOneThenPoint(t: string)
    requires |t| >= 2 && t[0] == '1' && t[1] == '.'
    ensures ParseAlphaGroup(t) == Some((AlphaGroup("", One, ""), t[1..]))
  {
    assert t == "" + t;
    SplitSpaceOf("", t);
    assert ParseAlpha(t) == Some((One, t[1..]));
    assert t[1..] == "" + t[1..];
    SplitSpaceOf("", t[1..]);
  }

  // ---------------------------------------------------------------------
  // hslColorRegex = /^hsl\(\s*(\d{1,3})\s*,\s*(\d{1,3})%\s*,\s*(\d{1,3})%\s*\)$/
  // ---------------------------------------------------------------------

  /** The pieces of an `hsl(...)` string: hue, then saturation and lightness with `%`. */
  datatype HslParts = HslParts(hue: Field, saturation: Field, lightness: Field)

  predicate HslOk(p: HslParts)
  {
    FieldOk(p.hue) && FieldOk(p.saturation) && FieldOk(p.lightness)
  }

  function RenderHsl(p: HslParts): string
  {
    "hsl(" + RenderFields(p.hue, p.saturation, p.lightness, "%", "%", ")")
  }

  function ParseHsl(s: string): (r: Option<HslParts>)
    ensures r.Some? ==> HslOk(r.value) && RenderHsl(r.value) == s
  {
    if |s| < 4 || s[..4] != "hsl(" then None
    else
      assert s == "hsl(" + s[4..];
      var fs := ParseFields(s[4..], "%", "%");
      if fs.None? || fs.value.3 != ")" then None
      else Some(HslParts(fs.value.0, fs.value.1, fs.value.2))
  }

  /** `hslColorRegex.test(s)` */
  predicate IsHslColor(s: string)
  {
    ParseHsl(s).Some?
  }

  /** Every well-formed `hsl` string is recognised, with the same pieces. */
  lemma HslComplete(p: HslParts)
    requires HslOk(p)
    ensures ParseHsl(RenderHsl(p)) == Some(p)
  {
    var s := RenderHsl(p);
    var body := RenderFields(p.hue, p.saturation, p.lightness, "%", "%", ")");
    assert s[..4] == "hsl(" && s[4..] == body;
    FieldsRoundTrip(p.hue, p.saturation, p.lightness, "%", "%", ")");
  }

  /** No range checks on hue, saturation or lightness. */
  lemma HslAcceptsOutOfRange(s: string)
    requires s == "hsl(999, 999%, 999%)"
    ensures IsHslColor(s)
  {
    var p := HslParts(Field("", "999", ""), Field(" ", "999", ""), Field(" ", "999", ""));
    OutOfRangeHslText(s);
    HslComplete(p);
  }

  lemma OutOfRangeHslText(s: string)
    requires s == "hsl(999, 999%, 999%)"
    ensures s == RenderHsl(HslParts(Field("", "999", ""), Field(" ", "999", ""), Field(" ", "999", "")))
  {
    var body := "999" + ("," + (" 999%" + ("," + (" 999%" + ")"))));
    assert s == "hsl(" + body;
    assert body == RenderFields(Field("", "999", ""), Field(" ", "999", ""), Field(" ", "999", ""), "%", "%", ")");
  }

  /** There is no `hsla` form. */
  lemma HslRejectsHsla(s: string)
    requires s == "hsla(1, 2%, 3%)"
    ensures !IsHslColor(s)
  {
    assert s[3] == 'a';
  }

  /** After the third field only `)` may follow: anything else is refused. */
  lemma HslRejectsTail(f1: Field, f2: Field, f3: Field, tail: string)
    requires FieldOk(f1) && FieldOk(f2) && FieldOk(f3)
    requires Stops(tail) && tail != ")"
    ensures !IsHslColor("hsl(" + RenderFields(f1, f2, f3, "%", "%", tail))
  {
    var body := RenderFields(f1, f2, f3, "%", "%", tail);
    var s := "hsl(" + body;
    assert s[..4] == "hsl(" && s[4..] == body;
    FieldsRoundTrip(f1, f2, f3, "%", "%", tail);
  }

  /** There is no alpha component: a fourth field leaves `,0.5)` where `)` must be. */
  lemma HslRejectsAlpha(s: string)
    requires s == "hsl(1,2%,3%,0.5)"
    ensures !IsHslColor(s)
  {
    var f1, f2, f3 := Field("", "1", ""), Field("", "2", ""), Field("", "3", "");
    var tail := ",0.5)";
    assert s == "hsl(" + RenderFields(f1, f2, f3, "%", "%", tail);
    HslRejectsTail(f1, f2, f3, tail);
  }
}
