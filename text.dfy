/**
 * Character classes and string primitives shared by the models of
 * src/index.ts, src/withGlobals.ts and src/regexps.ts.
 *
 * JavaScript strings are sequences of UTF-16 code units; here a string is
 * a `seq<char>` of Unicode scalar values.  Case mapping is ASCII-only.
 */
module Text {

  /** A value that may be absent: `NaN`, `null` or a failed match in the source. */
  datatype Option<T> = None | Some(value: T)

  // ---------------------------------------------------------------------
  // Character classes (the regular-expression classes the source uses)
  // ---------------------------------------------------------------------

  /** `\d` in a JavaScript regular expression: ASCII digits only. */
  predicate IsDigit(c: char) { '0' <= c <= '9' }

  /** `[0-9a-fA-F]` */
  predicate IsHexDigit(c: char) { IsDigit(c) || 'a' <= c <= 'f' || 'A' <= c <= 'F' }

  predicate IsLower(c: char) { 'a' <= c <= 'z' }

  predicate IsUpper(c: char) { 'A' <= c <= 'Z' }

  /** `[a-zA-Z0-9]` */
  predicate IsAlnum(c: char) { IsLower(c) || IsUpper(c) || IsDigit(c) }

  /** `\s`: the white-space and line-terminator code points of ECMAScript. */
  predicate IsSpace(c: char)
  {
    var n := c as int;
    (9 <= n <= 13) || n == 0x20 || n == 0xA0 || n == 0x1680 ||
    (0x2000 <= n <= 0x200A) || n == 0x2028 || n == 0x2029 || n == 0x202F ||
    n == 0x205F || n == 0x3000 || n == 0xFEFF
  }

  function DigitValue(c: char): (v: nat)
    requires IsDigit(c)
    ensures v < 10
  {
    c as int - '0' as int
  }

  function HexDigitValue(c: char): (v: nat)
    requires IsHexDigit(c)
    ensures v < 16
    ensures IsDigit(c) ==> v == DigitValue(c)
  {
    if IsDigit(c) then c as int - '0' as int
    else if 'a' <= c <= 'f' then c as int - 'a' as int + 10
    else c as int - 'A' as int + 10
  }

  function DigitChar(d: nat): (c: char)
    requires d < 10
    ensures IsDigit(c) && DigitValue(c) == d
  {
    ('0' as int + d) as char
  }

  // ---------------------------------------------------------------------
  // ASCII case mapping (String.prototype.toLowerCase / toUpperCase)
  // ---------------------------------------------------------------------

  function ToLowerChar(c: char): (r: char)
    ensures !IsUpper(r)
    ensures IsAlnum(r) <==> IsAlnum(c)
    ensures IsDigit(r) <==> IsDigit(c)
    ensures IsSpace(r) <==> IsSpace(c)
  {
    if IsUpper(c) then (c as int + 32) as char else c
  }

  function ToUpperChar(c: char): (r: char)
    ensures !IsLower(r)
    ensures ToLowerChar(r) == ToLowerChar(c)
    ensures IsAlnum(r) <==> IsAlnum(c)
  {
    if IsLower(c) then (c as int - 32) as char else c
  }

  /** `s.toLowerCase()` */
  function Lower(s: string): (r: string)
    ensures |r| == |s|
    ensures forall i :: 0 <= i < |s| ==> r[i] == ToLowerChar(s[i])
  {
    if s == [] then [] else [ToLowerChar(s[0])] + Lower(s[1..])
  }

  lemma LowerAppend(a: string, b: string)
    ensures Lower(a + b) == Lower(a) + Lower(b)
  {
  }

  /** Lower-casing twice is lower-casing once. */
  lemma LowerIdempotent(s: string)
    ensures Lower(Lower(s)) == Lower(s)
  {
  }

  /** `s.charAt(0).toUpperCase() + s.slice(1)`, also `ucfirst` of src/index.ts. */
  function UcFirst(s: string): (r: string)
    ensures |r| == |s|
    ensures s != [] ==> r[0] == ToUpperChar(s[0]) && r[1..] == s[1..]
    ensures s == [] ==> r == []
  {
    if s == [] then [] else [ToUpperChar(s[0])] + s[1..]
  }

  /** Upper-casing the first character twice changes nothing more. */
  lemma UcFirstIdempotent(s: string)
    ensures UcFirst(UcFirst(s)) == UcFirst(s)
  {
  }

  /** Upper-casing the first character is invisible after lower-casing. */
  lemma LowerUcFirst(s: string)
    ensures Lower(UcFirst(s)) == Lower(s)
  {
    if s != [] {
      assert UcFirst(s) == [ToUpperChar(s[0])] + s[1..];
      LowerAppend([ToUpperChar(s[0])], s[1..]);
      LowerAppend([s[0]], s[1..]);
      assert s == [s[0]] + s[1..];
    }
  }

  // ---------------------------------------------------------------------
  // Digit runs, decimal and hexadecimal values
  // ---------------------------------------------------------------------

  predicate AllDigits(s: string) { forall i :: 0 <= i < |s| ==> IsDigit(s[i]) }

  predicate AllHexDigits(s: string) { forall i :: 0 <= i < |s| ==> IsHexDigit(s[i]) }

  predicate AllAlnum(s: string) { forall i :: 0 <= i < |s| ==> IsAlnum(s[i]) }

  predicate HasNoDigit(s: string) { forall i :: 0 <= i < |s| ==> !IsDigit(s[i]) }

  /** The value of a run of decimal digits, most significant first. */
  function DigitsValue(s: string): nat
    requires AllDigits(s)
  {
    if s == [] then 0 else DigitsValue(s[..|s| - 1]) * 10 + DigitValue(s[|s| - 1])
  }

  /** The value of a run of hexadecimal digits, most significant first. */
  function HexValue(s: string): nat
    requires AllHexDigits(s)
  {
    if s == [] then 0 else HexValue(s[..|s| - 1]) * 16 + HexDigitValue(s[|s| - 1])
  }

  function Pow16(k: nat): (p: nat)
    ensures p >= 1
  {
    if k == 0 then 1 else 16 * Pow16(k - 1)
  }

  lemma ShiftStep(x: int, y: int, d: int, p: int)
    ensures (x * p + y) * 16 + d == x * (16 * p) + (y * 16 + d)
  {
  }

  /** Appending hexadecimal digits shifts the value of the prefix. */
  lemma {:induction false} HexValueAppend(a: string, b: string)
    requires AllHexDigits(a) && AllHexDigits(b)
    ensures AllHexDigits(a + b)
    ensures HexValue(a + b) == HexValue(a) * Pow16(|b|) + HexValue(b)
  {
    assert AllHexDigits(a + b) by {
      forall i | 0 <= i < |a + b| ensures IsHexDigit((a + b)[i]) {
        if i < |a| { assert (a + b)[i] == a[i]; } else { assert (a + b)[i] == b[i - |a|]; }
      }
    }
    if b == [] {
      assert a + b == a;
    } else {
      var b' := b[..|b| - 1];
      var ab := a + b;
      assert ab[..|ab| - 1] == a + b';
      assert ab[|ab| - 1] == b[|b| - 1];
      assert AllHexDigits(b');
      HexValueAppend(a, b');
      var d := HexDigitValue(b[|b| - 1]);
      assert HexValue(ab) == HexValue(a + b') * 16 + d;
      ShiftStep(HexValue(a), HexValue(b'), d, Pow16(|b'|));
    }
  }

  lemma HexValueBound(s: string)
    requires AllHexDigits(s)
    ensures HexValue(s) < Pow16(|s|)
  {
  }

  /** Decimal rendering of a natural number, without leading zeros. */
  function NatToDecimal(n: nat): (s: string)
    ensures |s| > 0 && AllDigits(s)
    ensures DigitsValue(s) == n
    ensures s[0] == '0' ==> n == 0 && s == "0"
  {
    if n < 10 then [DigitChar(n)]
    else
      var p := NatToDecimal(n / 10);
      var s := p + [DigitChar(n % 10)];
      assert s[..|s| - 1] == p;
      s
  }

  /**
   * `String(n)` prints an integer-valued number in plain decimal only while
   * its magnitude is below 10^21; from there on it switches to exponent form.
   */
  const DecimalLimit: int := 1_000_000_000_000_000_000_000

  /** `String(n)` for an integer-valued number below `DecimalLimit` in magnitude. */
  function IntToDecimal(n: int): (s: string)
    ensures |s| > 0
    ensures n >= 0 ==> AllDigits(s) && DigitsValue(s) == n
    ensures n < 0 ==> s[0] == '-' && AllDigits(s[1..]) && DigitsValue(s[1..]) == -n
  {
    if n < 0 then "-" + NatToDecimal(-n) else NatToDecimal(n)
  }

  /** Length of the longest prefix of `s` made of decimal digits. */
  function DigitRun(s: string): (n: nat)
    ensures n <= |s|
    ensures AllDigits(s[..n])
    ensures n < |s| ==> !IsDigit(s[n])
  {
    if s != [] && IsDigit(s[0]) then 1 + DigitRun(s[1..]) else 0
  }

  /** Digits followed by a non-digit or the end: the run is exactly the digits. */
  lemma {:induction false} DigitRunOf(d: string, t: string)
    requires AllDigits(d) && (t == [] || !IsDigit(t[0]))
    ensures DigitRun(d + t) == |d|
  {
    if d != [] {
      assert (d + t)[1..] == d[1..] + t;
      DigitRunOf(d[1..], t);
    }
  }

  /** Length of the longest prefix of `s` made of hexadecimal digits. */
  function HexRun(s: string): (n: nat)
    ensures n <= |s|
    ensures AllHexDigits(s[..n])
    ensures n < |s| ==> !IsHexDigit(s[n])
  {
    if s != [] && IsHexDigit(s[0]) then 1 + HexRun(s[1..]) else 0
  }

  /** Length of the longest prefix of `s` made of white space. */
  function SpaceRun(s: string): (n: nat)
    ensures n <= |s|
    ensures forall i :: 0 <= i < n ==> IsSpace(s[i])
    ensures n < |s| ==> !IsSpace(s[n])
  {
    if s != [] && IsSpace(s[0]) then 1 + SpaceRun(s[1..]) else 0
  }

  // ---------------------------------------------------------------------
  // White space: `replace(/^\s+|\s+$/g, '')` and `replace(/\s+/g, ' ')`
  // ---------------------------------------------------------------------

  /**
   * Drops the leading run of white space: exactly `SpaceRun(s)` characters,
   * all white space, up to the first character that is not.
   */
  function TrimStart(s: string): (r: string)
    ensures |r| <= |s| && r == s[SpaceRun(s)..]
  {
    if s != [] && IsSpace(s[0]) then
      assert s[1..][SpaceRun(s[1..])..] == s[SpaceRun(s)..];
      TrimStart(s[1..])
    else s
  }

  function TrimEnd(s: string): (r: string)
    ensures |r| <= |s| && r == s[..|r|]
    ensures forall i :: |r| <= i < |s| ==> IsSpace(s[i])
    ensures r != [] ==> !IsSpace(r[|r| - 1])
  {
    if s != [] && IsSpace(s[|s| - 1]) then TrimEnd(s[..|s| - 1]) else s
  }

  /** Removes leading and trailing white space; `TrimShape` says what is left. */
  function Trim(s: string): (r: string)
    ensures |r| <= |s|
  {
    TrimEnd(TrimStart(s))
  }

  /**
   * The trimmed string is the slice of `s` that starts after the leading
   * run of white space (`SpaceRun`) and is followed by white space only;
   * it neither starts nor ends with white space.
   */
  lemma TrimShape(s: string)
    ensures SpaceRun(s) + |Trim(s)| <= |s|
    ensures Trim(s) == s[SpaceRun(s)..SpaceRun(s) + |Trim(s)|]
    ensures forall i :: SpaceRun(s) + |Trim(s)| <= i < |s| ==> IsSpace(s[i])
    ensures Trim(s) != [] ==> !IsSpace(Trim(s)[0]) && !IsSpace(Trim(s)[|Trim(s)| - 1])
  {
    TrimSlice(s);
    TrimTail(s);
    TrimEnds(s);
  }

  lemma {:induction false} TrimSlice(s: string)
    ensures SpaceRun(s) + |Trim(s)| <= |s|
    ensures Trim(s) == s[SpaceRun(s)..SpaceRun(s) + |Trim(s)|]
  {
    var k, u, r := SpaceRun(s), TrimStart(s), Trim(s);
    TrimSliceAt(s, k, u, r);
  }

  lemma TrimSliceAt(s: string, k: nat, u: string, r: string)
    requires k <= |s| && u == s[k..] && r == TrimEnd(u)
    ensures k + |r| <= |s| && r == s[k..k + |r|]
  {
    PrefixOfSuffix(s, k, r);
  }

  /** A prefix of the suffix of `s` from `k` on is a slice of `s`. */
  lemma PrefixOfSuffix(s: string, k: nat, r: string)
    requires k <= |s| && |r| <= |s| - k && r == s[k..][..|r|]
    ensures r == s[k..k + |r|]
  {
  }

  lemma TrimTail(s: string)
    ensures forall i :: SpaceRun(s) + |Trim(s)| <= i < |s| ==> IsSpace(s[i])
  {
    var u := TrimStart(s);
    var r := TrimEnd(u);
    assert Trim(s) == r;
    SliceOfSuffix(s, SpaceRun(s), u, r);
  }

  lemma TrimEnds(s: string)
    ensures Trim(s) != [] ==> !IsSpace(Trim(s)[0]) && !IsSpace(Trim(s)[|Trim(s)| - 1])
  {
    var u := TrimStart(s);
    if Trim(s) != [] {
      assert Trim(s)[0] == u[0];
    }
  }

  /** A prefix `r` of the suffix `u` of `s` from `k` on, followed in `u` by white space only. */
  lemma SliceOfSuffix(s: string, k: nat, u: string, r: string)
    requires k <= |s| && u == s[k..]
    requires |r| <= |u| && r == u[..|r|]
    requires forall i :: |r| <= i < |u| ==> IsSpace(u[i])
    ensures r == s[k..k + |r|]
    ensures forall i :: k + |r| <= i < |s| ==> IsSpace(s[i])
  {
    forall i | k + |r| <= i < |s| ensures IsSpace(s[i]) {
      assert s[i] == u[i - k];
    }
  }

  /** Trimming a lower-cased string leaves no upper-case letter. */
  lemma TrimLowerNoUpper(s: string)
    ensures forall i :: 0 <= i < |Trim(Lower(s))| ==> !IsUpper(Trim(Lower(s))[i])
  {
    var t := Lower(s);
    TrimSlice(t);
    LowerSliceNoUpper(s, SpaceRun(t), SpaceRun(t) + |Trim(t)|);
  }

  /** Any slice of a lower-cased string has no upper-case letter. */
  lemma LowerSliceNoUpper(s: string, a: nat, b: nat)
    requires a <= b <= |s|
    ensures forall i :: 0 <= i < b - a ==> !IsUpper(Lower(s)[a..b][i])
  {
    forall i | 0 <= i < b - a ensures !IsUpper(Lower(s)[a..b][i]) {
      assert Lower(s)[a..b][i] == ToLowerChar(s[a + i]);
    }
  }

  /** Replaces every maximal run of white space by one blank. */
  function CollapseSpaces(s: string): (r: string)
    ensures |r| <= |s|
  {
    if s == [] then []
    else if IsSpace(s[0]) then
      var n := SpaceRun(s);
      " " + CollapseSpaces(s[n..])
    else [s[0]] + CollapseSpaces(s[1..])
  }

  /**
   * What `CollapseSpaces` leaves: nothing only from nothing, a leading
   * white space exactly where the input had one, no white space but
   * blanks, and never two white-space characters side by side.
   */
  lemma {:induction false} CollapseShape(s: string)
    ensures CollapseSpaces(s) == [] <==> s == []
    ensures s != [] ==> (IsSpace(CollapseSpaces(s)[0]) <==> IsSpace(s[0]))
    ensures forall i :: 0 <= i < |CollapseSpaces(s)| && IsSpace(CollapseSpaces(s)[i]) ==> CollapseSpaces(s)[i] == ' '
    ensures forall i :: 0 <= i < |CollapseSpaces(s)| - 1 ==>
      !(IsSpace(CollapseSpaces(s)[i]) && IsSpace(CollapseSpaces(s)[i + 1]))
    decreases |s|
  {
    if s != [] {
      var r := CollapseSpaces(s);
      if IsSpace(s[0]) {
        var rest := s[SpaceRun(s)..];
        CollapseShape(rest);
        CollapseAfterBlank(rest, r);
      } else {
        CollapseShape(s[1..]);
        CollapseAfterChar(s[0], CollapseSpaces(s[1..]), r);
      }
    }
  }

  /** A blank put before a collapsed text that does not start with white space. */
  lemma CollapseAfterBlank(rest: string, r: string)
    requires r == " " + CollapseSpaces(rest)
    requires rest != [] ==> !IsSpace(rest[0])
    requires CollapseSpaces(rest) == [] <==> rest == []
    requires rest != [] ==> (IsSpace(CollapseSpaces(rest)[0]) <==> IsSpace(rest[0]))
    requires forall i :: 0 <= i < |CollapseSpaces(rest)| && IsSpace(CollapseSpaces(rest)[i]) ==> CollapseSpaces(rest)[i] == ' '
    requires forall i :: 0 <= i < |CollapseSpaces(rest)| - 1 ==>
      !(IsSpace(CollapseSpaces(rest)[i]) && IsSpace(CollapseSpaces(rest)[i + 1]))
    ensures forall i :: 0 <= i < |r| && IsSpace(r[i]) ==> r[i] == ' '
    ensures forall i :: 0 <= i < |r| - 1 ==> !(IsSpace(r[i]) && IsSpace(r[i + 1]))
  {
    var t := CollapseSpaces(rest);
    forall i | 0 <= i < |r| && IsSpace(r[i]) ensures r[i] == ' ' {
      if i > 0 { assert r[i] == t[i - 1]; }
    }
    forall i | 0 <= i < |r| - 1 ensures !(IsSpace(r[i]) && IsSpace(r[i + 1])) {
      assert r[i + 1] == t[i];
      if i > 0 { assert r[i] == t[i - 1]; }
    }
  }

  /** A non-space character put before a collapsed text. */
  lemma CollapseAfterChar(c: char, t: string, r: string)
    requires r == [c] + t && !IsSpace(c)
    requires forall i :: 0 <= i < |t| && IsSpace(t[i]) ==> t[i] == ' '
    requires forall i :: 0 <= i < |t| - 1 ==> !(IsSpace(t[i]) && IsSpace(t[i + 1]))
    ensures forall i :: 0 <= i < |r| && IsSpace(r[i]) ==> r[i] == ' '
    ensures forall i :: 0 <= i < |r| - 1 ==> !(IsSpace(r[i]) && IsSpace(r[i + 1]))
  {
    forall i | 0 <= i < |r| && IsSpace(r[i]) ensures r[i] == ' ' {
      if i > 0 { assert r[i] == t[i - 1]; }
    }
    forall i | 0 <= i < |r| - 1 ensures !(IsSpace(r[i]) && IsSpace(r[i + 1])) {
      assert r[i + 1] == t[i];
      if i > 0 { assert r[i] == t[i - 1]; }
    }
  }

  // ---------------------------------------------------------------------
  // Ordering of strings by the relational operators `<` and `>`
  // ---------------------------------------------------------------------

  /** `a < b` on two strings: lexicographic by character code. */
  predicate StrLess(a: string, b: string)
  {
    if a == [] then b != []
    else if b == [] then false
    else if a[0] != b[0] then a[0] < b[0]
    else StrLess(a[1..], b[1..])
  }

  lemma {:induction false} StrLessIrreflexive(a: string)
    ensures !StrLess(a, a)
  {
    if a != [] { StrLessIrreflexive(a[1..]); }
  }

  lemma {:induction false} StrLessAsymmetric(a: string, b: string)
    ensures StrLess(a, b) ==> !StrLess(b, a)
  {
    if a != [] && b != [] && a[0] == b[0] { StrLessAsymmetric(a[1..], b[1..]); }
  }

  // ---------------------------------------------------------------------
  // Words: `split(/[^a-zA-Z0-9]+/)` and the camel-case join
  // ---------------------------------------------------------------------

  /** Length of the longest prefix of `s` made of characters outside `[a-zA-Z0-9]`. */
  function SeparatorRun(s: string): (n: nat)
    ensures n <= |s|
    ensures forall i :: 0 <= i < n ==> !IsAlnum(s[i])
    ensures n < |s| ==> IsAlnum(s[n])
  {
    if s != [] && !IsAlnum(s[0]) then 1 + SeparatorRun(s[1..]) else 0
  }

  /**
   * `s.split(/[^a-zA-Z0-9]+/)`: the pieces between maximal runs of
   * separators, with an empty first (last) piece when `s` starts (ends)
   * with a separator.
   */
  function SplitWords(s: string): (ws: seq<string>)
    ensures |ws| >= 1
    decreases |s|
  {
    if s == [] then [""]
    else if IsAlnum(s[0]) then
      var rest := SplitWords(s[1..]);
      [[s[0]] + rest[0]] + rest[1..]
    else
      var n := SeparatorRun(s);
      [""] + SplitWords(s[n..])
  }

  function Concat(ws: seq<string>): string
  {
    if ws == [] then "" else ws[0] + Concat(ws[1..])
  }

  /** The characters of `s` that are in `[a-zA-Z0-9]`, in order. */
  function KeepAlnum(s: string): (r: string)
    ensures AllAlnum(r)
  {
    if s == [] then []
    else if IsAlnum(s[0]) then [s[0]] + KeepAlnum(s[1..])
    else KeepAlnum(s[1..])
  }

  lemma {:induction false} KeepAlnumSkip(s: string, n: nat)
    requires n <= |s|
    requires forall i :: 0 <= i < n ==> !IsAlnum(s[i])
    ensures KeepAlnum(s) == KeepAlnum(s[n..])
  {
    if n > 0 {
      KeepAlnumSkip(s[1..], n - 1);
      assert s[1..][n - 1..] == s[n..];
    }
  }

  lemma ConcatCons(x: string, ys: seq<string>)
    ensures Concat([x] + ys) == x + Concat(ys)
  {
    assert ([x] + ys)[1..] == ys;
  }

  /** Splitting only removes separators: the words concatenate to the alphanumerics. */
  lemma {:induction false} SplitWordsConcat(s: string)
    ensures Concat(SplitWords(s)) == KeepAlnum(s)
    decreases |s|
  {
    if s == [] {
    } else if IsAlnum(s[0]) {
      var rest := SplitWords(s[1..]);
      SplitWordsConcat(s[1..]);
      assert rest == [rest[0]] + rest[1..];
      ConcatCons(rest[0], rest[1..]);
      ConcatCons([s[0]] + rest[0], rest[1..]);
      assert ([s[0]] + rest[0]) + Concat(rest[1..]) == [s[0]] + (rest[0] + Concat(rest[1..]));
    } else {
      var n := SeparatorRun(s);
      SplitWordsConcat(s[n..]);
      KeepAlnumSkip(s, n);
      ConcatCons("", SplitWords(s[n..]));
      assert "" + Concat(SplitWords(s[n..])) == Concat(SplitWords(s[n..]));
    }
  }

  /** Every word produced by the split is alphanumeric. */
  lemma {:induction false} SplitWordsAlnum(s: string)
    ensures forall k :: 0 <= k < |SplitWords(s)| ==> AllAlnum(SplitWords(s)[k])
    decreases |s|
  {
    if s == [] {
    } else if IsAlnum(s[0]) {
      SplitWordsAlnum(s[1..]);
    } else {
      SplitWordsAlnum(s[SeparatorRun(s)..]);
    }
  }

  lemma {:induction false} SeparatorRunOf(sep: string, rest: string)
    requires forall i :: 0 <= i < |sep| ==> !IsAlnum(sep[i])
    requires rest == [] || IsAlnum(rest[0])
    ensures SeparatorRun(sep + rest) == |sep|
  {
    if sep != [] {
      assert (sep + rest)[1..] == sep[1..] + rest;
      SeparatorRunOf(sep[1..], rest);
    } else {
      assert sep + rest == rest;
    }
  }

  /**
   * A word, a run of separators and what follows: the split yields the
   * word and then the pieces of the rest.
   */
  lemma {:induction false} SplitWordsBoundary(w: string, sep: string, rest: string)
    requires AllAlnum(w)
    requires sep != [] && forall i :: 0 <= i < |sep| ==> !IsAlnum(sep[i])
    requires rest == [] || IsAlnum(rest[0])
    ensures SplitWords(w + sep + rest) == [w] + SplitWords(rest)
  {
    var s := w + sep + rest;
    if w == [] {
      assert s == sep + rest;
      SeparatorRunOf(sep, rest);
      assert s[|sep|..] == rest;
    } else {
      assert s[0] == w[0] && IsAlnum(w[0]);
      assert s[1..] == w[1..] + sep + rest;
      assert AllAlnum(w[1..]) by {
        forall i | 0 <= i < |w[1..]| ensures IsAlnum(w[1..][i]) { assert w[1..][i] == w[i + 1]; }
      }
      SplitWordsBoundary(w[1..], sep, rest);
      assert [w[0]] + w[1..] == w;
    }
  }

  /** Text without separators is a single word. */
  lemma {:induction false} SplitWordsWord(w: string)
    requires AllAlnum(w)
    ensures SplitWords(w) == [w]
  {
    if w != [] {
      assert AllAlnum(w[1..]) by {
        forall i | 0 <= i < |w[1..]| ensures IsAlnum(w[1..][i]) { assert w[1..][i] == w[i + 1]; }
      }
      SplitWordsWord(w[1..]);
      assert [w[0]] + w[1..] == w;
    }
  }

  /** The later words, each with its first character upper-cased, joined. */
  function JoinCapitalised(ws: seq<string>): string
  {
    if ws == [] then "" else UcFirst(ws[0]) + JoinCapitalised(ws[1..])
  }

  /**
   * `ws.map((w, i) => i === 0 ? (ucf ? ucfirst(w) : w) : ucfirst(w)).join('')`
   */
  function CamelJoin(ws: seq<string>, ucf: bool): string
  {
    if ws == [] then ""
    else (if ucf then UcFirst(ws[0]) else ws[0]) + JoinCapitalised(ws[1..])
  }

  /** The first word, then the later words capitalised. */
  lemma CamelJoinCons(w: string, ws: seq<string>, ucf: bool)
    ensures CamelJoin([w] + ws, ucf) == (if ucf then UcFirst(w) else w) + JoinCapitalised(ws)
    ensures JoinCapitalised([w] + ws) == UcFirst(w) + JoinCapitalised(ws)
  {
    assert ([w] + ws)[1..] == ws;
  }

  lemma {:induction false} JoinCapitalisedLower(ws: seq<string>)
    ensures Lower(JoinCapitalised(ws)) == Lower(Concat(ws))
  {
    if ws != [] {
      JoinCapitalisedLower(ws[1..]);
      LowerUcFirst(ws[0]);
      LowerAppend(UcFirst(ws[0]), JoinCapitalised(ws[1..]));
      LowerAppend(ws[0], Concat(ws[1..]));
    }
  }

  lemma {:induction false} JoinCapitalisedAlnum(ws: seq<string>)
    requires forall k :: 0 <= k < |ws| ==> AllAlnum(ws[k])
    ensures AllAlnum(JoinCapitalised(ws))
  {
    if ws != [] {
      JoinCapitalisedAlnum(ws[1..]);
      UcFirstAlnum(ws[0]);
    }
  }

  /**
   * Camel-casing changes only letter case: lower-cased, the join equals the
   * lower-cased concatenation of the words, and it keeps the first word
   * (or its capitalised form) as a prefix.
   */
  lemma CamelJoinProperties(ws: seq<string>, ucf: bool)
    requires |ws| >= 1
    ensures Lower(CamelJoin(ws, ucf)) == Lower(Concat(ws))
    ensures var first := if ucf then UcFirst(ws[0]) else ws[0];
            CamelJoin(ws, ucf)[..|first|] == first
    ensures (forall k :: 0 <= k < |ws| ==> AllAlnum(ws[k])) ==> AllAlnum(CamelJoin(ws, ucf))
  {
    CamelJoinLower(ws, ucf);
    CamelJoinPrefix(ws, ucf);
    if forall k :: 0 <= k < |ws| ==> AllAlnum(ws[k]) {
      CamelJoinAlnum(ws, ucf);
    }
  }

  lemma CamelJoinPrefix(ws: seq<string>, ucf: bool)
    requires |ws| >= 1
    ensures var first := if ucf then UcFirst(ws[0]) else ws[0];
            CamelJoin(ws, ucf)[..|first|] == first
  {
  }

  lemma CamelJoinAlnum(ws: seq<string>, ucf: bool)
    requires |ws| >= 1
    requires forall k :: 0 <= k < |ws| ==> AllAlnum(ws[k])
    ensures AllAlnum(CamelJoin(ws, ucf))
  {
    JoinCapitalisedAlnum(ws[1..]);
    UcFirstAlnum(ws[0]);
  }

  lemma CamelJoinLower(ws: seq<string>, ucf: bool)
    requires |ws| >= 1
    ensures Lower(CamelJoin(ws, ucf)) == Lower(Concat(ws))
  {
    var first := if ucf then UcFirst(ws[0]) else ws[0];
    JoinCapitalisedLower(ws[1..]);
    LowerAppend(first, JoinCapitalised(ws[1..]));
    LowerAppend(ws[0], Concat(ws[1..]));
    if ucf { LowerUcFirst(ws[0]); }
  }

  lemma UcFirstAlnum(w: string)
    requires AllAlnum(w)
    ensures AllAlnum(UcFirst(w))
  {
    var u := UcFirst(w);
    forall i | 0 <= i < |u| ensures IsAlnum(u[i]) {
      if i > 0 { assert u[i] == w[i]; }
    }
  }

  // ---------------------------------------------------------------------
  // Sequence steps shared by the proofs
  // ---------------------------------------------------------------------

  lemma CutAt(r: string, n: nat)
    requires n <= |r|
    ensures r == r[..n] + r[n..]
  {
  }

  lemma HeadTail(w: string, m: string)
    requires w != []
    ensures [w[0]] + (w[1..] + m) == w + m
  {
    assert w == [w[0]] + w[1..];
  }
}
