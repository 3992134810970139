/**
 * `natsort` of src/index.ts: a configurable comparator that orders strings
 * and numbers "naturally" (`item2` before `item10`).
 *
 * The comparator normalises both values, tokenizes them at numeric
 * literals, may decide at once through a hexadecimal or date fast path,
 * and otherwise walks the two token lists with early returns.  The host's
 * `Date.parse` and `localeCompare` are parameters (`Host`); so is the date
 * pattern beyond the characters every one of its matches contains.
 * Numbers are exact integers.
 */
module NatSort {
  import opened Text

  // ---------------------------------------------------------------------
  // Configuration: SORT and sortOptions of src/types.ts
  // ---------------------------------------------------------------------

  datatype Sort = Asc | Desc

  /** Both fields are optional in the source; `None` is `undefined`. */
  datatype SortOptions = SortOptions(direction: Option<Sort>, caseSensitive: Option<bool>)

  /** The options used when `natsort` is called without any. */
  const DefaultOptions := SortOptions(Some(Asc), Some(false))

  /** `GREATER`: -1 exactly when the direction is `Desc`. */
  function Greater(o: SortOptions): (g: int)
    ensures g == 1 || g == -1
    ensures g == -1 <==> o.direction == Some(Desc)
  {
    if o.direction == Some(Desc) then -1 else 1
  }

  /** `SMALLER = -GREATER` */
  function Smaller(o: SortOptions): int
  {
    -Greater(o)
  }

  /** `!options.caseSensitive` is false only for an explicit `true`. */
  predicate CaseSensitive(o: SortOptions)
  {
    o.caseSensitive == Some(true)
  }

  /** The services of the JavaScript host that the comparator calls. */
  datatype Host = Host(
    dateParse: string -> Option<int>,   // Date.parse; None is NaN
    dateShape: string -> bool,          // the date regular expression `dre`, see DateShape
    collate: (string, string) -> int)   // String.prototype.localeCompare

  predicate IsDateMark(c: char)
  {
    c == ':' || c == '/' || c == '-' || c == ','
  }

  /**
   * `bb.match(dre)` for the date pattern `dre` of src/index.ts.  Every
   * match contains a `:` (first alternative, a time), a `/` or `-` (second,
   * a numeric date) or a `,` (third, a written date), so text without
   * these never matches; beyond that necessary condition the pattern is
   * the host field `dateShape`.
   */
  predicate DateShape(h: Host, s: string)
  {
    (exists i :: 0 <= i < |s| && IsDateMark(s[i])) && h.dateShape(s)
  }

  /** A comparator argument: `string | number`. */
  datatype Input = InText(s: string) | InNumber(n: int)

  /** `s.toString()` / `${s}` */
  function StringOf(x: Input): string
  {
    match x
    case InText(s) => s
    case InNumber(n) => IntToDecimal(n)
  }

  /**
   * `_normalize`: the string form, lower-cased unless case-sensitive, with
   * the white space around it removed and nothing else changed.
   */
  function Normalize(o: SortOptions, x: Input): (r: string)
    ensures r == Trim(Folded(o, x))
    ensures r != [] ==> !IsSpace(r[0]) && !IsSpace(r[|r| - 1])
    ensures !CaseSensitive(o) ==> forall i :: 0 <= i < |r| ==> !IsUpper(r[i])
  {
    TrimLowerNoUpper(StringOf(x));
    TrimEnds(Folded(o, x));
    Trim(Folded(o, x))
  }

  /** The string form, lower-cased unless case-sensitive. */
  function Folded(o: SortOptions, x: Input): string
  {
    if CaseSensitive(o) then StringOf(x) else Lower(StringOf(x))
  }

  // ---------------------------------------------------------------------
  // _tokenize: s.replace(nre, '\0$1\0').replace(/\0$/, '').replace(/^\0/, '').split('\0')
  // with nre = /(0x[\da-fA-F]+|(^[\+\-]?\d+(?:\.\d*)?(?:[eE][+\-]?\d+)?(?=\D|\s|$))|\d+)/g
  // ---------------------------------------------------------------------

  const NUL: char := 0 as char

  predicate NoNul(s: string) { forall i :: 0 <= i < |s| ==> s[i] != NUL }

  /** Length of an optional leading `+` or `-`. */
  function SignLen(r: string): (n: nat)
    ensures n <= 1 && n <= |r|
    ensures n == 1 ==> r[0] == '+' || r[0] == '-'
  {
    if |r| > 0 && (r[0] == '+' || r[0] == '-') then 1 else 0
  }

  /** Length of the first alternative `0x[\da-fA-F]+` at the start of `r`, or 0. */
  function HexMatch(r: string): (n: nat)
    ensures n <= |r|
    ensures n > 0 ==> n >= 3 && r[0] == '0' && r[1] == 'x' && AllHexDigits(r[2..n])
    ensures n > 0 && n < |r| ==> !IsHexDigit(r[n])
  {
    if |r| >= 2 && r[0] == '0' && r[1] == 'x' && HexRun(r[2..]) > 0 then
      var k := HexRun(r[2..]);
      assert r[2..][..k] == r[2..2 + k];
      2 + k
    else 0
  }

  /** Length of an exponent `[eE][+\-]?\d+` at the start of `r`, or 0. */
  function ExponentLen(r: string): (n: nat)
    ensures n <= |r|
  {
    if |r| > 0 && (r[0] == 'e' || r[0] == 'E') then
      var j := 1 + SignLen(r[1..]);
      var e := DigitRun(r[j..]);
      if e > 0 then j + e else 0
    else 0
  }

  /**
   * Length of the second alternative, the `^`-anchored literal
   * `[\+\-]?\d+(?:\.\d*)?(?:[eE][+\-]?\d+)?`, or 0.  Every part is taken
   * greedily; the digit runs are maximal, so the look-ahead `(?=\D|\s|$)`
   * always holds after a greedy match and never forces a retreat.
   */
  function LeadMatch(r: string): (n: nat)
    ensures n <= |r|
    ensures n > 0 ==> SignLen(r) < |r| && IsDigit(r[SignLen(r)])
  {
    var k0 := SignLen(r);
    var d := DigitRun(r[k0..]);
    if d == 0 then 0
    else
      var k1 := k0 + d;
      var k2 := if k1 < |r| && r[k1] == '.' then k1 + 1 + DigitRun(r[k1 + 1..]) else k1;
      k2 + ExponentLen(r[k2..])
  }

  /**
   * Length of the match of `nre` that starts at the front of `r`, or 0 when
   * none does; `atStart` says whether `r` begins the whole string (where
   * the anchored alternative may apply).
   */
  function MatchLen(r: string, atStart: bool): (n: nat)
    ensures n <= |r|
    ensures n > 0 ==> IsDigit(r[0]) || (atStart && (r[0] == '+' || r[0] == '-'))
    ensures AllDigits(r) && r != [] ==> n == |r|
  {
    if HexMatch(r) > 0 then HexMatch(r)
    else if atStart && LeadMatch(r) > 0 then LeadMatch(r)
    else DigitRun(r)
  }

  /** The first `replace`: every match `m` of `nre` becomes NUL `m` NUL. */
  function Mark(r: string, atStart: bool): string
    decreases |r|
  {
    if r == [] then []
    else
      var n := MatchLen(r, atStart);
      if n > 0 then [NUL] + r[..n] + [NUL] + Mark(r[n..], false)
      else [r[0]] + Mark(r[1..], false)
  }

  /** `replace(/\0$/, '')` */
  function DropLastNul(t: string): (r: string)
    ensures t != [] && t[|t| - 1] == NUL ==> r + [NUL] == t
    ensures (t == [] || t[|t| - 1] != NUL) ==> r == t
  {
    if t != [] && t[|t| - 1] == NUL then t[..|t| - 1] else t
  }

  /** `replace(/^\0/, '')` */
  function DropFirstNul(t: string): (r: string)
    ensures t != [] && t[0] == NUL ==> [NUL] + r == t
    ensures (t == [] || t[0] != NUL) ==> r == t
  {
    if t != [] && t[0] == NUL then t[1..] else t
  }

  /** Length of the longest prefix of `t` without NUL. */
  function NulFreeRun(t: string): (k: nat)
    ensures k <= |t| && NoNul(t[..k])
    ensures k < |t| ==> t[k] == NUL
  {
    if t != [] && t[0] != NUL then 1 + NulFreeRun(t[1..]) else 0
  }

  /** `split('\0')` */
  function Split(t: string): (ts: seq<string>)
    ensures |ts| >= 1
    ensures forall i :: 0 <= i < |ts| ==> NoNul(ts[i])
    decreases |t|
  {
    var k := NulFreeRun(t);
    if k == |t| then
      assert t[..k] == t;
      [t]
    else [t[..k]] + Split(t[k + 1..])
  }

  /** `_tokenize` */
  function Tokenize(s: string): (ts: seq<string>)
    ensures |ts| >= 1
  {
    Split(DropFirstNul(DropLastNul(Mark(s, true))))
  }

  /** The text of `t` without its NUL characters. */
  function DropNuls(t: string): string
  {
    if t == [] then [] else (if t[0] == NUL then [] else [t[0]]) + DropNuls(t[1..])
  }

  lemma {:induction false} DropNulsAppend(a: string, b: string)
    ensures DropNuls(a + b) == DropNuls(a) + DropNuls(b)
  {
    if a != [] {
      assert (a + b)[0] == a[0];
      assert (a + b)[1..] == a[1..] + b;
      DropNulsAppend(a[1..], b);
    } else {
      assert a + b == b;
    }
  }

  lemma {:induction false} DropNulsOfNulFree(t: string)
    requires NoNul(t)
    ensures DropNuls(t) == t
  {
    if t != [] {
      DropNulsOfNulFree(t[1..]);
    }
  }

  /** Where a literal starts, marking wraps it in NULs and goes on after it. */
  lemma MarkWraps(r: string, atStart: bool)
    requires r != [] && MatchLen(r, atStart) > 0
    ensures var n := MatchLen(r, atStart);
      Mark(r, atStart) == [NUL] + r[..n] + [NUL] + Mark(r[n..], false)
  {
  }

  /** Where no literal starts, marking copies one character and goes on. */
  lemma MarkCopies(r: string, atStart: bool)
    requires r != [] && MatchLen(r, atStart) == 0
    ensures Mark(r, atStart) == [r[0]] + Mark(r[1..], false)
  {
  }

  lemma DropNulsWrapped(x: string, y: string)
    ensures DropNuls([NUL] + x + [NUL] + y) == DropNuls(x) + DropNuls(y)
  {
    DropNulsAppend([NUL] + x + [NUL], y);
    DropNulsAppend([NUL] + x, [NUL]);
    DropNulsAppend([NUL], x);
  }

  /** Marking only inserts NUL characters. */
  lemma {:induction false} MarkKeepsText(r: string, atStart: bool)
    ensures DropNuls(Mark(r, atStart)) == DropNuls(r)
    decreases |r|
  {
    if r != [] {
      var n := MatchLen(r, atStart);
      if n > 0 {
        MarkWraps(r, atStart);
        MarkKeepsText(r[n..], false);
        DropNulsWrapped(r[..n], Mark(r[n..], false));
        DropNulsAppend(r[..n], r[n..]);
        CutAt(r, n);
      } else {
        MarkCopies(r, atStart);
        MarkKeepsText(r[1..], false);
        DropNulsAppend([r[0]], Mark(r[1..], false));
        DropNulsAppend([r[0]], r[1..]);
        CutAt(r, 1);
      }
    }
  }

  /** A string without digits has no match, so marking leaves it alone. */
  lemma {:induction false} MarkNoDigit(r: string, atStart: bool)
    requires HasNoDigit(r)
    ensures Mark(r, atStart) == r
    decreases |r|
  {
    if r != [] {
      assert !IsDigit(r[0]);
      assert HexMatch(r) == 0;
      assert LeadMatch(r) == 0 by {
        if SignLen(r) < |r| { assert !IsDigit(r[SignLen(r)]); }
      }
      assert MatchLen(r, atStart) == 0;
      MarkNoDigit(r[1..], false);
    }
  }

  /** Cutting at the first NUL: the text before it, then the text after it. */
  lemma {:induction false} DropNulsAtCut(t: string)
    requires NulFreeRun(t) < |t|
    ensures DropNuls(t) == t[..NulFreeRun(t)] + DropNuls(t[NulFreeRun(t) + 1..])
    decreases |t|
  {
    var u := t[1..];
    if t[0] != NUL {
      DropNulsAtCut(u);
      var k := NulFreeRun(u);
      assert NulFreeRun(t) == k + 1;
      assert DropNuls(t) == [t[0]] + DropNuls(u);
      assert t[..k + 1] == [t[0]] + u[..k];
      assert t[k + 2..] == u[k + 1..];
    } else {
      assert NulFreeRun(t) == 0;
      assert DropNuls(t) == DropNuls(u);
      assert t[..0] == [];
    }
  }

  lemma {:induction false} SplitConcat(t: string)
    ensures Concat(Split(t)) == DropNuls(t)
    decreases |t|
  {
    var k := NulFreeRun(t);
    if k == |t| {
      assert t[..k] == t;
      DropNulsOfNulFree(t);
    } else {
      var rest := Split(t[k + 1..]);
      SplitConcat(t[k + 1..]);
      DropNulsAtCut(t);
      assert Split(t) == [t[..k]] + rest;
      assert ([t[..k]] + rest)[1..] == rest;
    }
  }

  lemma DropEndsKeepText(t: string)
    ensures DropNuls(DropFirstNul(DropLastNul(t))) == DropNuls(t)
  {
    var u := DropLastNul(t);
    if t != [] && t[|t| - 1] == NUL {
      assert t == u + [NUL];
      DropNulsAppend(u, [NUL]);
    }
    if u != [] && u[0] == NUL {
      assert u == [NUL] + u[1..];
      DropNulsAppend([NUL], u[1..]);
    }
  }

  /** Tokenizing a NUL-free string cuts it into pieces and loses nothing. */
  lemma TokensConcat(s: string)
    requires NoNul(s)
    ensures Concat(Tokenize(s)) == s
  {
    var m := Mark(s, true);
    SplitConcat(DropFirstNul(DropLastNul(m)));
    DropEndsKeepText(m);
    MarkKeepsText(s, true);
    DropNulsOfNulFree(s);
  }

  /** A NUL-free string without digits is a single token. */
  lemma TokensNoDigit(s: string)
    requires NoNul(s) && HasNoDigit(s)
    ensures Tokenize(s) == [s]
  {
    MarkNoDigit(s, true);
    assert NulFreeRun(s) == |s|;
  }

  // ---------------------------------------------------------------------
  // Token keys: _parse, parseFloat and Number
  // ---------------------------------------------------------------------

  /** A token's key: a number, or a string when `parseFloat` gave 0 or NaN. */
  datatype Key = Num(value: int) | Text(text: string)

  /** The integer part of a leading literal: an optional sign, then digits. */
  function IntegerPart(t: string): (r: Option<int>)
    ensures r.Some? <==> SignLen(t) < |t| && IsDigit(t[SignLen(t)])
  {
    var k := SignLen(t);
    var d := DigitRun(t[k..]);
    if d == 0 then None
    else
      assert t[k..][..d] == t[k..k + d];
      var v: int := DigitsValue(t[k..k + d]);
      Some(if k == 1 && t[0] == '-' then -v else v)
  }

  /**
   * `parseFloat(t)` on integers: the optional sign and the digits that
   * start `t`; anything after them, fraction and exponent included, is
   * ignored.  None is NaN.
   */
  function ParseFloat(t: string): Option<int>
  {
    IntegerPart(t)
  }

  /** `0x` or `0X` followed by hexadecimal digits, the whole string. */
  predicate IsHexLiteral(t: string)
  {
    |t| >= 3 && t[0] == '0' && (t[1] == 'x' || t[1] == 'X') && AllHexDigits(t[2..])
  }

  /**
   * `Number(t)` for a trimmed string: a hexadecimal literal, or a whole
   * decimal literal (sign, digits, optional fraction and exponent) read
   * for its integer part.  None is NaN.
   */
  function JsNumber(t: string): (r: Option<int>)
    ensures HasNoDigit(t) ==> r == None
  {
    if IsHexLiteral(t) then Some(HexValue(t[2..]))
    else if t != [] && LeadMatch(t) == |t| then IntegerPart(t)
    else None
  }

  /** `_parse(s, l)`: `(!/^0/.test(s) || l === 1) && parseFloat(s) || collapsed(s) || 0` */
  function ParseToken(tok: string, l: int): (k: Key)
    ensures k.Num? && k.value != 0 ==> ParseFloat(tok) == Some(k.value)
    ensures k.Text? ==> k.text != [] && k.text == Trim(CollapseSpaces(tok))
    ensures tok == [] ==> k == Num(0)
    ensures (!(|tok| > 0 && tok[0] == '0') || l == 1) && ParseFloat(tok).Some? && ParseFloat(tok).value != 0
      ==> k == Num(ParseFloat(tok).value)
    ensures !((!(|tok| > 0 && tok[0] == '0') || l == 1) && ParseFloat(tok).Some? && ParseFloat(tok).value != 0)
      ==> k.Text? || k == Num(0)
    ensures k == Num(0) ==> Trim(CollapseSpaces(tok)) == []
  {
    var numeric := !(|tok| > 0 && tok[0] == '0') || l == 1;
    var pf := ParseFloat(tok);
    if numeric && pf.Some? && pf.value != 0 then Num(pf.value)
    else
      var t := Trim(CollapseSpaces(tok));
      if t != [] then Text(t) else Num(0)
  }

  /** `isNaN(k)`: only a string key can be NaN, when `Number` rejects it. */
  predicate IsNaN(k: Key)
  {
    k.Text? && JsNumber(k.text).None?
  }

  /** `${k}` */
  function StrForm(k: Key): string
  {
    match k
    case Num(n) => IntToDecimal(n)
    case Text(t) => t
  }

  /**
   * `x < y`: two numbers or two strings compare as such; a number and a
   * string compare numerically, and never hold when the string is NaN.
   */
  predicate Less(x: Key, y: Key)
  {
    match (x, y)
    case (Num(p), Num(q)) => p < q
    case (Text(s), Text(t)) => StrLess(s, t)
    case (Num(p), Text(t)) => JsNumber(t).Some? && p < JsNumber(t).value
    case (Text(s), Num(q)) => JsNumber(s).Some? && JsNumber(s).value < q
  }

  /** A character outside `[\x00-\x80]`. */
  predicate HasHigh(s: string)
  {
    exists i :: 0 <= i < |s| && s[i] as int > 0x80
  }

  /**
   * `ure.test(af + bf) && af.localeCompare`: the first key is a string and
   * one of the two keys holds a character beyond `\x80` (numbers print in
   * ASCII, and a number has no `localeCompare`).
   */
  predicate LocaleBranch(af: Key, bf: Key)
  {
    af.Text? && (HasHigh(af.text) || HasHigh(StrForm(bf)))
  }

  // ---------------------------------------------------------------------
  // The comparator
  // ---------------------------------------------------------------------

  /** `aArr[i] || ''` */
  function TokenAt(ts: seq<string>, i: nat): string
  {
    if i < |ts| then ts[i] else ""
  }

  function Max(x: int, y: int): int { if x < y then y else x }

  /**
   * The hexadecimal or date fast path: the values `av` and `bv` when `bv`
   * is truthy, None when the loop decides.
   */
  function FastPath(h: Host, aa: string, bb: string, al: int): (r: Option<(int, int)>)
    ensures r.Some? ==> r.value.1 != 0
  {
    if IsHexLiteral(aa) && IsHexLiteral(bb) then
      var bv := HexValue(bb[2..]);
      if bv != 0 then Some((HexValue(aa[2..]), bv)) else None
    else if al != 1 then
      match h.dateParse(aa)
      case None => None
      case Some(av) =>
        if av != 0 && DateShape(h, bb) then
          match h.dateParse(bb)
          case None => None
          case Some(bv) => if bv != 0 then Some((av, bv)) else None
        else None
    else None
  }

  /** The key of every token: `_parse(aArr[i], al)` for each `i`. */
  function Keys(ts: seq<string>): (ks: seq<Key>)
    ensures |ks| == |ts|
  {
    seq(|ts|, i requires 0 <= i < |ts| => ParseToken(ts[i], |ts|))
  }

  /** `_parse(aArr[i] || '', al)`: past the last token the key is that of `''`, 0. */
  function KeyAt(ks: seq<Key>, i: nat): Key
  {
    if i < |ks| then ks[i] else Num(0)
  }

  /**
   * What one pass of the loop body decides, independently of the
   * direction: return SMALLER (`Before`), GREATER (`After`), 0 (`Same`),
   * or go on to the next index (`Undecided`).
   */
  datatype Verdict = Before | After | Same | Undecided

  /** The loop body on the keys `af` and `bf`; `last` says the index is `l - 1`. */
  function Judge(h: Host, af: Key, bf: Key, last: bool): Verdict
  {
    if IsNaN(af) != IsNaN(bf) then (if IsNaN(af) then After else Before)
    else if LocaleBranch(af, bf) && h.collate(af.text, StrForm(bf)) != 0 then
      (if h.collate(af.text, StrForm(bf)) > 0 then After else Before)
    else if LocaleBranch(af, bf) && last then Same
    else if Less(af, bf) then Before
    else if Less(bf, af) then After
    else if StrLess(StrForm(af), StrForm(bf)) then Before
    else if StrLess(StrForm(bf), StrForm(af)) then After
    else Undecided
  }

  /** The verdict at every index `0 <= i < l` of the loop, `l = max(al, bl)`. */
  function Verdicts(h: Host, aks: seq<Key>, bks: seq<Key>): (vs: seq<Verdict>)
    ensures |vs| == Max(|aks|, |bks|)
  {
    var l := Max(|aks|, |bks|);
    seq(l, i requires 0 <= i < l => Judge(h, KeyAt(aks, i), KeyAt(bks, i), i + 1 == l))
  }

  /** The value returned on a decisive verdict; `g` is GREATER. */
  function Outcome(g: int, v: Verdict): int
  {
    match v
    case Before => -g
    case After => g
    case _ => 0
  }

  /** The loop from index `i` on: the first decisive verdict's value, or 0. */
  function LoopFrom(g: int, vs: seq<Verdict>, i: nat): (r: int)
    ensures r == 0 || r == g || r == -g
    decreases |vs| - i
  {
    if i >= |vs| then 0
    else if vs[i] == Undecided then LoopFrom(g, vs, i + 1)
    else Outcome(g, vs[i])
  }

  /** The comparator on two normal forms; `g` is GREATER. */
  function CompareNormal(g: int, h: Host, aa: string, bb: string): (r: int)
    ensures r == 0 || r == g || r == -g
  {
    if aa == [] && bb == [] then 0
    else if aa == [] then -g
    else if bb == [] then g
    else
      var aArr := Tokenize(aa);
      var bArr := Tokenize(bb);
      var fast := FastPath(h, aa, bb, |aArr|);
      if fast.Some? then
        var (av, bv) := fast.value;
        if av == bv then 0 else if av < bv then -g else g
      else LoopFrom(g, Verdicts(h, Keys(aArr), Keys(bArr)), 0)
  }

  /** The comparator `natsort(o)` applied to `a` and `b`. */
  function NatCompare(o: SortOptions, h: Host, a: Input, b: Input): (r: int)
    ensures r == 0 || r == Greater(o) || r == Smaller(o)
  {
    CompareNormal(Greater(o), h, Normalize(o, a), Normalize(o, b))
  }

  /** The comparator as the source runs it: a loop with early returns. */
  method Compare(o: SortOptions, h: Host, a: Input, b: Input) returns (r: int)
    ensures r == NatCompare(o, h, a, b)
  {
    var greater := Greater(o);
    var smaller := -greater;
    var aa := Normalize(o, a);
    var bb := Normalize(o, b);
    if aa == [] && bb == [] { return 0; }
    if aa == [] { return smaller; }
    if bb == [] { return greater; }
    var aArr := Tokenize(aa);
    var bArr := Tokenize(bb);
    var fast := FastPath(h, aa, bb, |aArr|);
    if fast.Some? {
      var av, bv := fast.value.0, fast.value.1;
      if av == bv { return 0; }
      if av < bv { return smaller; }
      return greater;
    }
    r := TokenLoop(greater, h, aArr, bArr);
  }

  /** The `for` loop over token indices, with its early returns. */
  method TokenLoop(greater: int, h: Host, aArr: seq<string>, bArr: seq<string>) returns (r: int)
    ensures r == LoopFrom(greater, Verdicts(h, Keys(aArr), Keys(bArr)), 0)
  {
    ghost var vs := Verdicts(h, Keys(aArr), Keys(bArr));
    var al, bl := |aArr|, |bArr|;
    var l := Max(al, bl);
    var i := 0;
    while i < l
      invariant 0 <= i <= l == |vs|
      invariant LoopFrom(greater, vs, i) == LoopFrom(greater, vs, 0)
    {
      var af := ParseToken(TokenAt(aArr, i), al);
      var bf := ParseToken(TokenAt(bArr, i), bl);
      VerdictAt(h, aArr, bArr, i);
      var decided, out := Step(greater, h, af, bf, i == l - 1);
      if decided {
        return out;
      }
      i := i + 1;
    }
    return 0;
  }

  /** The verdict at index `i` is the loop body's on the tokens there. */
  lemma VerdictAt(h: Host, aArr: seq<string>, bArr: seq<string>, i: nat)
    requires i < Max(|aArr|, |bArr|)
    ensures Verdicts(h, Keys(aArr), Keys(bArr))[i] ==
      Judge(h, ParseToken(TokenAt(aArr, i), |aArr|), ParseToken(TokenAt(bArr, i), |bArr|),
            i == Max(|aArr|, |bArr|) - 1)
  {
    assert KeyAt(Keys(aArr), i) == ParseToken(TokenAt(aArr, i), |aArr|);
    assert KeyAt(Keys(bArr), i) == ParseToken(TokenAt(bArr, i), |bArr|);
  }

  /** One pass of the loop body: whether it returns, and what. */
  method Step(greater: int, h: Host, af: Key, bf: Key, last: bool) returns (decided: bool, r: int)
    ensures decided <==> Judge(h, af, bf, last) != Undecided
    ensures decided ==> r == Outcome(greater, Judge(h, af, bf, last))
  {
    var smaller := -greater;
    if IsNaN(af) != IsNaN(bf) {
      return true, if IsNaN(af) then greater else smaller;
    }
    if LocaleBranch(af, bf) {
      var comp := h.collate(af.text, StrForm(bf));
      if comp > 0 { return true, greater; }
      if comp < 0 { return true, smaller; }
      if last { return true, 0; }
    }
    if Less(af, bf) { return true, smaller; }
    if Less(bf, af) { return true, greater; }
    if StrLess(StrForm(af), StrForm(bf)) { return true, smaller; }
    if StrLess(StrForm(bf), StrForm(af)) { return true, greater; }
    return false, 0;
  }

  // ---------------------------------------------------------------------
  // Properties of the comparator
  // ---------------------------------------------------------------------

  /**
   * Empty values: two empty normal forms are equal, and an empty value is
   * SMALLER than a non-empty one, so it comes first in ascending order.
   */
  lemma EmptyValues(o: SortOptions, h: Host, a: Input, b: Input)
    ensures Normalize(o, a) == [] && Normalize(o, b) == [] ==> NatCompare(o, h, a, b) == 0
    ensures Normalize(o, a) == [] && Normalize(o, b) != [] ==> NatCompare(o, h, a, b) == Smaller(o)
    ensures Normalize(o, a) != [] && Normalize(o, b) == [] ==> NatCompare(o, h, a, b) == Greater(o)
  {
    var aa, bb := Normalize(o, a), Normalize(o, b);
    assert NatCompare(o, h, a, b) == CompareNormal(Greater(o), h, aa, bb);
  }

  lemma {:induction false} LoopNegates(g: int, vs: seq<Verdict>, i: nat)
    ensures LoopFrom(-g, vs, i) == -LoopFrom(g, vs, i)
    decreases |vs| - i
  {
    if i < |vs| && vs[i] == Undecided {
      LoopNegates(g, vs, i + 1);
    }
  }

  lemma CompareNormalNegates(h: Host, aa: string, bb: string)
    ensures CompareNormal(-1, h, aa, bb) == -CompareNormal(1, h, aa, bb)
  {
    if aa != [] && bb != [] {
      var vs := Verdicts(h, Keys(Tokenize(aa)), Keys(Tokenize(bb)));
      var fast := FastPath(h, aa, bb, |Tokenize(aa)|);
      LoopNegates(1, vs, 0);
      CompareNonEmpty(1, h, aa, bb, fast, vs);
      CompareNonEmpty(-1, h, aa, bb, fast, vs);
    }
  }

  /** The comparator on two non-empty normal forms: the fast path, else the loop. */
  lemma CompareNonEmpty(g: int, h: Host, aa: string, bb: string, fast: Option<(int, int)>, vs: seq<Verdict>)
    requires aa != [] && bb != []
    requires fast == FastPath(h, aa, bb, |Tokenize(aa)|)
    requires vs == Verdicts(h, Keys(Tokenize(aa)), Keys(Tokenize(bb)))
    ensures CompareNormal(g, h, aa, bb) ==
      if fast.None? then LoopFrom(g, vs, 0)
      else if fast.value.0 == fast.value.1 then 0
      else if fast.value.0 < fast.value.1 then -g else g
  {
  }

  /** The direction never steers the comparison: `Desc` is exactly the negation of `Asc`. */
  lemma DescNegatesAsc(cs: Option<bool>, h: Host, a: Input, b: Input)
    ensures NatCompare(SortOptions(Some(Desc), cs), h, a, b) == -NatCompare(SortOptions(Some(Asc), cs), h, a, b)
  {
    var asc, desc := SortOptions(Some(Asc), cs), SortOptions(Some(Desc), cs);
    var aa, bb := Normalize(asc, a), Normalize(asc, b);
    SameFolding(asc, desc, a);
    SameFolding(asc, desc, b);
    CompareNormalNegates(h, aa, bb);
    NegatedNormal(asc, desc, h, a, b, aa, bb);
  }

  lemma NegatedNormal(asc: SortOptions, desc: SortOptions, h: Host, a: Input, b: Input, aa: string, bb: string)
    requires Greater(asc) == 1 && Greater(desc) == -1
    requires Normalize(asc, a) == aa && Normalize(asc, b) == bb
    requires Normalize(desc, a) == aa && Normalize(desc, b) == bb
    requires CompareNormal(-1, h, aa, bb) == -CompareNormal(1, h, aa, bb)
    ensures NatCompare(desc, h, a, b) == -NatCompare(asc, h, a, b)
  {
    NatCompareOfNormal(asc, h, a, b, aa, bb);
    NatCompareOfNormal(desc, h, a, b, aa, bb);
  }

  /** Options that agree on case sensitivity normalise alike. */
  lemma SameFolding(o: SortOptions, p: SortOptions, x: Input)
    requires o.caseSensitive == p.caseSensitive
    ensures Normalize(o, x) == Normalize(p, x)
  {
    assert Folded(o, x) == Folded(p, x);
  }

  /** A missing direction is `Asc`. */
  lemma MissingDirectionIsAsc(cs: Option<bool>, h: Host, a: Input, b: Input)
    ensures NatCompare(SortOptions(None, cs), h, a, b) == NatCompare(SortOptions(Some(Asc), cs), h, a, b)
  {
    var asc, none := SortOptions(Some(Asc), cs), SortOptions(None, cs);
    assert Greater(none) == Greater(asc);
    assert Normalize(none, a) == Normalize(asc, a);
    assert Normalize(none, b) == Normalize(asc, b);
  }

  /** `localeCompare` of a string with itself is 0. */
  ghost predicate CollateReflexive(h: Host)
  {
    forall s :: h.collate(s, s) == 0
  }

  /** Equal keys never decide the comparison except as 0. */
  lemma JudgeSameKey(h: Host, k: Key, last: bool)
    requires CollateReflexive(h)
    ensures Judge(h, k, k, last) == Undecided || Judge(h, k, k, last) == Same
  {
    if k.Text? {
      StrLessIrreflexive(k.text);
      assert h.collate(k.text, StrForm(k)) == 0;
    }
    StrLessIrreflexive(StrForm(k));
  }

  /** A loop whose verdicts never order the two values returns 0. */
  lemma {:induction false} LoopQuiet(g: int, vs: seq<Verdict>, i: nat)
    requires forall j :: i <= j < |vs| ==> vs[j] == Undecided || vs[j] == Same
    ensures LoopFrom(g, vs, i) == 0
    decreases |vs| - i
  {
    if i < |vs| && vs[i] == Undecided {
      LoopQuiet(g, vs, i + 1);
    }
  }

  lemma SameKeysQuiet(h: Host, ks: seq<Key>)
    requires CollateReflexive(h)
    ensures forall j :: 0 <= j < |Verdicts(h, ks, ks)| ==>
      Verdicts(h, ks, ks)[j] == Undecided || Verdicts(h, ks, ks)[j] == Same
  {
    var vs := Verdicts(h, ks, ks);
    forall j | 0 <= j < |vs| ensures vs[j] == Undecided || vs[j] == Same {
      JudgeSameKey(h, KeyAt(ks, j), j + 1 == |vs|);
    }
  }

  lemma FastPathSame(h: Host, s: string, al: int)
    ensures FastPath(h, s, s, al).Some? ==> FastPath(h, s, s, al).value.0 == FastPath(h, s, s, al).value.1
  {
  }

  lemma CompareNormalSame(g: int, h: Host, s: string)
    requires CollateReflexive(h)
    ensures CompareNormal(g, h, s, s) == 0
  {
    if s != [] {
      var ks := Keys(Tokenize(s));
      FastPathSame(h, s, |Tokenize(s)|);
      SameKeysQuiet(h, ks);
      LoopQuiet(g, Verdicts(h, ks, ks), 0);
    }
  }

  /** Values with the same normal form compare equal; so does a value with itself. */
  lemma EqualNormalForms(o: SortOptions, h: Host, a: Input, b: Input)
    requires CollateReflexive(h)
    requires Normalize(o, a) == Normalize(o, b)
    ensures NatCompare(o, h, a, b) == 0
  {
    CompareNormalSame(Greater(o), h, Normalize(o, a));
  }

  /** Surrounding blanks go: `" " + w + " "` trims to `w`. */
  lemma TrimSpaced(w: string)
    requires w != [] && HasNoSpace(w)
    ensures Trim(" " + w + " ") == w
  {
    var s := " " + w + " ";
    assert s[1..] == w + " ";
    assert TrimStart(w + " ") == w + " ";
    assert (w + " ")[..|w|] == w;
    assert TrimEnd(w + " ") == TrimEnd(w);
    assert TrimEnd(w) == w;
  }

  /** A capitalised word normalises to the word when case is ignored. */
  lemma CapitalisedNormalForm(o: SortOptions, w: string)
    requires IsWord(w) && !CaseSensitive(o)
    ensures Normalize(o, InText(UcFirst(w))) == w
  {
    assert HasNoSpace(w);
    LowerUcFirst(w);
    LowerKeeps(w);
    NoSpaceUnchanged(w);
  }

  /** A word with blanks around it normalises to the word. */
  lemma SpacedNormalForm(o: SortOptions, w: string)
    requires IsWord(w)
    ensures Normalize(o, InText(" " + w + " ")) == w
  {
    var s := " " + w + " ";
    assert HasNoSpace(w);
    assert forall i :: 0 <= i < |s| ==> !IsUpper(s[i]) by {
      forall i | 0 <= i < |s| ensures !IsUpper(s[i]) {
        if 0 < i < |s| - 1 { assert s[i] == w[i - 1]; }
      }
    }
    LowerKeeps(s);
    TrimSpaced(w);
  }

  /**
   * Case and surrounding blanks are ignored: a capitalised word matches
   * the same word in lower case with blanks around it.
   */
  lemma CaseAndBlanksIgnored(o: SortOptions, h: Host, w: string)
    requires IsWord(w) && !CaseSensitive(o) && CollateReflexive(h)
    ensures NatCompare(o, h, InText(UcFirst(w)), InText(" " + w + " ")) == 0
  {
    CapitalisedNormalForm(o, w);
    SpacedNormalForm(o, w);
    EqualNormalForms(o, h, InText(UcFirst(w)), InText(" " + w + " "));
  }

  /** `"Apple"` and `" apple "` are equal when case is ignored. */
  lemma AppleMatchesSpacedApple(o: SortOptions, h: Host, a: string, b: string)
    requires a == "Apple" && b == " apple "
    requires !CaseSensitive(o) && CollateReflexive(h)
    ensures NatCompare(o, h, InText(a), InText(b)) == 0
  {
    var w := "apple";
    assert IsWord(w);
    assert UcFirst(w) == a;
    assert " " + w + " " == b;
    CaseAndBlanksIgnored(o, h, w);
  }

  // Keys of digit-run tokens

  predicate HasNoSpace(s: string) { forall i :: 0 <= i < |s| ==> !IsSpace(s[i]) }

  lemma {:induction false} CollapseNoSpace(s: string)
    requires HasNoSpace(s)
    ensures CollapseSpaces(s) == s
  {
    if s != [] {
      CollapseNoSpace(s[1..]);
    }
  }

  lemma NoSpaceUnchanged(s: string)
    requires HasNoSpace(s)
    ensures CollapseSpaces(s) == s && Trim(s) == s
  {
    CollapseNoSpace(s);
  }

  lemma {:induction false} LeadingDigitPositive(s: string)
    requires s != [] && AllDigits(s) && s[0] != '0'
    ensures DigitsValue(s) > 0
  {
    if |s| > 1 {
      LeadingDigitPositive(s[..|s| - 1]);
    }
  }

  lemma DigitRunAll(s: string)
    requires AllDigits(s)
    ensures DigitRun(s) == |s|
  {
  }

  /**
   * A digit-run token is keyed by its value unless it starts with `0`; a
   * zero-led token stays text, except as a value's only token when its
   * value is not 0.
   */
  lemma DigitTokenKey(tok: string, l: int)
    requires tok != [] && AllDigits(tok)
    ensures tok[0] != '0' ==> ParseToken(tok, l) == Num(DigitsValue(tok))
    ensures tok[0] == '0' && l != 1 ==> ParseToken(tok, l) == Text(tok)
    ensures tok[0] == '0' && l == 1 ==>
      ParseToken(tok, l) == if DigitsValue(tok) == 0 then Text(tok) else Num(DigitsValue(tok))
  {
    DigitRunAll(tok);
    assert SignLen(tok) == 0;
    assert tok[0..][..|tok|] == tok[0..0 + |tok|] == tok;
    assert ParseFloat(tok) == Some(DigitsValue(tok));
    assert HasNoSpace(tok);
    NoSpaceUnchanged(tok);
    if tok[0] != '0' {
      LeadingDigitPositive(tok);
    }
  }

  /**
   * A signed digit token such as `"-5"` is keyed by its signed value
   * wherever it stands, because it does not start with `0`.
   */
  lemma SignedTokenKey(sign: char, d: string, l: int)
    requires sign == '-' || sign == '+'
    requires d != [] && AllDigits(d) && DigitsValue(d) != 0
    ensures sign == '-' ==> ParseToken([sign] + d, l) == Num(-(DigitsValue(d) as int))
    ensures sign == '+' ==> ParseToken([sign] + d, l) == Num(DigitsValue(d))
  {
    SignedFloat(sign, d);
  }

  /** `parseFloat` of a sign followed by digits. */
  lemma SignedFloat(sign: char, d: string)
    requires sign == '-' || sign == '+'
    requires d != [] && AllDigits(d)
    ensures ParseFloat([sign] + d) == Some(if sign == '-' then -(DigitsValue(d) as int) else DigitsValue(d))
  {
    var tok := [sign] + d;
    assert SignLen(tok) == 1;
    assert tok[1..] == d;
    DigitRunAll(d);
    assert tok[1..][..|d|] == tok[1..1 + |d|] == d;
  }

  // Words followed by numbers: `item` < `item2` < `item10`

  /** A non-empty run of lower-case letters. */
  predicate IsWord(w: string)
  {
    w != [] && forall i :: 0 <= i < |w| ==> IsLower(w[i])
  }

  /** No numeric literal starts at a letter. */
  lemma NoMatchAtLetter(r: string, atStart: bool)
    requires r != [] && IsLower(r[0])
    ensures MatchLen(r, atStart) == 0
  {
    assert HexMatch(r) == 0;
    assert SignLen(r) == 0 && !IsDigit(r[0]);
  }

  /** Marking a word followed by anything copies the word's first letter. */
  lemma MarkLetter(w: string, rest: string, atStart: bool)
    requires IsWord(w)
    ensures Mark(w + rest, atStart) == [w[0]] + Mark(w[1..] + rest, false)
  {
    var r := w + rest;
    assert r[0] == w[0] && r[1..] == w[1..] + rest;
    NoMatchAtLetter(r, atStart);
    MarkCopies(r, atStart);
  }

  lemma {:induction false} MarkWordPrefix(w: string, rest: string, atStart: bool)
    requires IsWord(w)
    ensures Mark(w + rest, atStart) == w + Mark(rest, false)
    decreases |w|
  {
    MarkLetter(w, rest, atStart);
    if |w| == 1 {
      assert w[1..] + rest == rest && w == [w[0]];
    } else {
      assert IsWord(w[1..]);
      MarkWordPrefix(w[1..], rest, false);
      HeadTail(w, Mark(rest, false));
    }
  }

  lemma MarkDigits(d: string)
    requires d != [] && AllDigits(d)
    ensures Mark(d, false) == [NUL] + d + [NUL]
  {
    assert d[..|d|] == d;
    assert d[|d|..] == [];
  }

  lemma SplitWordDigits(w: string, d: string)
    requires IsWord(w) && d != [] && AllDigits(d)
    ensures Split(w + [NUL] + d) == [w, d]
  {
    var x := w + [NUL] + d;
    var k := NulFreeRun(x);
    assert x[|w|] == NUL;
    assert forall i :: 0 <= i < |w| ==> x[i] == w[i];
    assert k == |w|;
    assert x[..k] == w && x[k + 1..] == d;
    assert NulFreeRun(d) == |d| by {
      assert forall i :: 0 <= i < |d| ==> d[i] != NUL by {
        forall i | 0 <= i < |d| ensures d[i] != NUL { assert IsDigit(d[i]); }
      }
    }
    assert d[..|d|] == d;
  }

  /** A word followed by a digit run tokenizes as the two. */
  lemma TokensWordNumber(w: string, d: string)
    requires IsWord(w) && d != [] && AllDigits(d)
    ensures Tokenize(w + d) == [w, d]
  {
    MarkWordPrefix(w, d, true);
    MarkDigits(d);
    var m := w + ([NUL] + d + [NUL]);
    assert Mark(w + d, true) == m;
    assert DropLastNul(m) == w + [NUL] + d;
    assert DropFirstNul(w + [NUL] + d) == w + [NUL] + d;
    SplitWordDigits(w, d);
  }

  /** A digit run alone is one token. */
  lemma TokensNumber(d: string)
    requires d != [] && AllDigits(d)
    ensures Tokenize(d) == [d]
  {
    var m := [NUL] + d + [NUL];
    assert Mark(d, true) == m by {
      assert MatchLen(d, true) == |d|;
      assert d[..|d|] == d && d[|d|..] == [];
    }
    assert DropFirstNul(DropLastNul(m)) == d;
    assert NulFreeRun(d) == |d| by {
    }
    assert d[..|d|] == d;
  }

  /** A word is a NaN-like text key that needs no collator. */
  lemma WordKey(w: string, l: int)
    requires IsWord(w)
    ensures ParseToken(w, l) == Text(w)
    ensures IsNaN(Text(w)) && !HasHigh(w)
  {
    assert SignLen(w) == 0 && !IsDigit(w[0]);
    assert ParseFloat(w) == None;
    assert HasNoSpace(w);
    NoSpaceUnchanged(w);
    assert !IsHexLiteral(w);
    assert LeadMatch(w) == 0;
  }

  lemma NormalizeLowerAlnum(o: SortOptions, s: string)
    requires forall i :: 0 <= i < |s| ==> IsLower(s[i]) || IsDigit(s[i])
    ensures Normalize(o, InText(s)) == s
  {
    LowerKeeps(s);
    assert HasNoSpace(s) by {
      forall i | 0 <= i < |s| ensures !IsSpace(s[i]) { assert IsLower(s[i]) || IsDigit(s[i]); }
    }
    NoSpaceUnchanged(s);
  }

  lemma LowerKeeps(s: string)
    requires forall i :: 0 <= i < |s| ==> !IsUpper(s[i])
    ensures Lower(s) == s
  {
    var r := Lower(s);
    assert |r| == |s|;
    forall i | 0 <= i < |s| ensures r[i] == s[i] {
      assert r[i] == ToLowerChar(s[i]);
    }
  }

  lemma WordNumberChars(w: string, d: string)
    requires IsWord(w) && AllDigits(d)
    ensures forall i :: 0 <= i < |w + d| ==> IsLower((w + d)[i]) || IsDigit((w + d)[i])
  {
    forall i | 0 <= i < |w + d| ensures IsLower((w + d)[i]) || IsDigit((w + d)[i]) {
      if i < |w| { assert (w + d)[i] == w[i]; } else { assert (w + d)[i] == d[i - |w|]; }
    }
  }

  /** A positive decimal numeral is all digits and does not start with `0`. */
  lemma NumeralShape(n: nat)
    requires n >= 1
    ensures var d := NatToDecimal(n); d != [] && AllDigits(d) && d[0] != '0' && DigitsValue(d) == n
  {
  }

  /** The keys of a word followed by a positive numeral. */
  lemma WordNumberKeys(w: string, n: nat)
    requires IsWord(w) && n >= 1
    ensures Keys(Tokenize(w + NatToDecimal(n))) == [Text(w), Num(n)]
  {
    var d := NatToDecimal(n);
    NumeralShape(n);
    TokensWordNumber(w, d);
    WordKey(w, 2);
    DigitTokenKey(d, 2);
  }

  /** The keys of a word alone. */
  lemma WordKeys(w: string)
    requires IsWord(w)
    ensures Keys(Tokenize(w)) == [Text(w)]
  {
    WordTokens(w);
    WordKey(w, 1);
    KeysSingle(w, Text(w));
  }

  /** The keys of a single token. */
  lemma KeysSingle(t: string, k: Key)
    requires ParseToken(t, 1) == k
    ensures Keys([t]) == [k]
  {
    assert Keys([t])[0] == ParseToken(t, 1);
  }

  /** A word is a single token. */
  lemma WordTokens(w: string)
    requires IsWord(w)
    ensures Tokenize(w) == [w]
  {
    assert NoNul(w) && HasNoDigit(w);
    TokensNoDigit(w);
  }

  /** The keys of a positive numeral alone. */
  lemma NumberKeys(n: nat)
    requires n >= 1
    ensures Keys(Tokenize(NatToDecimal(n))) == [Num(n)]
  {
    var d := NatToDecimal(n);
    NumeralShape(n);
    TokensNumber(d);
    DigitTokenKey(d, 1);
  }

  /** A word against itself decides nothing. */
  lemma JudgeSameWord(h: Host, w: string, last: bool)
    requires IsWord(w)
    ensures Judge(h, Text(w), Text(w), last) == Undecided
  {
    WordKey(w, 2);
    JudgeSameText(h, w, last);
  }

  /** An ASCII text key against itself decides nothing. */
  lemma JudgeSameText(h: Host, t: string, last: bool)
    requires !HasHigh(t)
    ensures Judge(h, Text(t), Text(t), last) == Undecided
  {
    StrLessIrreflexive(t);
  }

  /** Two numbers: the smaller comes first. */
  lemma JudgeSmallerNumber(h: Host, m: int, n: int, last: bool)
    requires m < n
    ensures Judge(h, Num(m), Num(n), last) == Before
  {
  }

  /** Two keys per side, the first pair undecided: the loop follows the second. */
  lemma LoopSecondDecides(g: int, h: Host, a0: Key, a1: Key, b0: Key, b1: Key)
    requires Judge(h, a0, b0, false) == Undecided
    requires Judge(h, a1, b1, true) != Undecided
    ensures LoopFrom(g, Verdicts(h, [a0, a1], [b0, b1]), 0) == Outcome(g, Judge(h, a1, b1, true))
  {
    var vs := Verdicts(h, [a0, a1], [b0, b1]);
    assert vs[0] == Undecided;
    assert vs[1] == Judge(h, a1, b1, true);
  }

  /** Equal words and then smaller numbers: the loop returns SMALLER at index 1. */
  lemma LoopWordThenNumbers(g: int, h: Host, w: string, m: int, n: int)
    requires IsWord(w) && m < n
    ensures LoopFrom(g, Verdicts(h, [Text(w), Num(m)], [Text(w), Num(n)]), 0) == -g
  {
    JudgeSameWord(h, w, false);
    JudgeSmallerNumber(h, m, n, true);
    LoopSecondDecides(g, h, Text(w), Num(m), Text(w), Num(n));
  }

  /** The comparator on `w + m` and `w + n`: the second is no date, the loop decides. */
  lemma CompareWordNumbers(g: int, h: Host, w: string, m: nat, n: nat)
    requires IsWord(w) && 1 <= m < n
    ensures CompareNormal(g, h, w + NatToDecimal(m), w + NatToDecimal(n)) == -g
  {
    var a, b := w + NatToDecimal(m), w + NatToDecimal(n);
    NumeralShape(n);
    WordNumberChars(w, NatToDecimal(n));
    assert !DateShape(h, b);
    WordNumberKeys(w, m);
    WordNumberKeys(w, n);
    TokensWordNumber(w, NatToDecimal(m));
    assert a[0] == w[0] && b[0] == w[0];
    assert FastPath(h, a, b, 2) == None;
    LoopWordThenNumbers(g, h, w, m, n);
  }

  /**
   * A word followed by a number sorts by that number: `item2` before
   * `item10`.
   */
  lemma WordNumberOrder(o: SortOptions, h: Host, w: string, m: nat, n: nat)
    requires IsWord(w) && 1 <= m < n
    ensures NatCompare(o, h, InText(w + NatToDecimal(m)), InText(w + NatToDecimal(n))) == Smaller(o)
  {
    NormalizeWordNumber(o, w, m);
    NormalizeWordNumber(o, w, n);
    CompareWordNumbers(Greater(o), h, w, m, n);
  }

  /** A word followed by a positive numeral is its own normal form. */
  lemma NormalizeWordNumber(o: SortOptions, w: string, n: nat)
    requires IsWord(w) && n >= 1
    ensures Normalize(o, InText(w + NatToDecimal(n))) == w + NatToDecimal(n)
  {
    NumeralShape(n);
    WordNumberChars(w, NatToDecimal(n));
    NormalizeLowerAlnum(o, w + NatToDecimal(n));
  }

  /** A missing token is keyed 0: the word alone comes first at index 1. */
  lemma LoopWordThenMissing(g: int, h: Host, w: string, n: int)
    requires IsWord(w) && n > 0
    ensures LoopFrom(g, Verdicts(h, [Text(w)], [Text(w), Num(n)]), 0) == -g
  {
    JudgeSameWord(h, w, false);
    JudgeSmallerNumber(h, 0, n, true);
    LoopSecondDecides(g, h, Text(w), KeyAt([Text(w)], 1), Text(w), Num(n));
    assert [Text(w), KeyAt([Text(w)], 1)] == [Text(w), Num(0)];
    assert Verdicts(h, [Text(w)], [Text(w), Num(n)]) == Verdicts(h, [Text(w), Num(0)], [Text(w), Num(n)]);
  }

  lemma CompareWordNumbered(g: int, h: Host, w: string, n: nat)
    requires IsWord(w) && n >= 1
    ensures CompareNormal(g, h, w, w + NatToDecimal(n)) == -g
  {
    var b := w + NatToDecimal(n);
    WordKeys(w);
    WordNumberKeys(w, n);
    WordTokens(w);
    assert b[0] == w[0];
    assert FastPath(h, w, b, 1) == None;
    LoopWordThenMissing(g, h, w, n);
  }

  /** A word sorts before the same word followed by a number: `item` before `item2`. */
  lemma WordBeforeNumbered(o: SortOptions, h: Host, w: string, n: nat)
    requires IsWord(w) && n >= 1
    ensures NatCompare(o, h, InText(w), InText(w + NatToDecimal(n))) == Smaller(o)
  {
    var b := w + NatToDecimal(n);
    NormalizeLowerAlnum(o, w);
    NormalizeWordNumber(o, w, n);
    CompareWordNumbered(Greater(o), h, w, n);
    NatCompareOfNormal(o, h, InText(w), InText(b), w, b);
  }

  /** The comparator on inputs whose normal forms are known. */
  lemma NatCompareOfNormal(o: SortOptions, h: Host, a: Input, b: Input, aa: string, bb: string)
    requires Normalize(o, a) == aa && Normalize(o, b) == bb
    ensures NatCompare(o, h, a, b) == CompareNormal(Greater(o), h, aa, bb)
  {
  }

  /** `"item2"` before `"item10"`, and `"item"` before `"item2"`. */
  lemma ItemExamples(o: SortOptions, h: Host, a: string, b: string, c: string)
    requires a == "item" && b == "item2" && c == "item10"
    ensures NatCompare(o, h, InText(b), InText(c)) == Smaller(o)
    ensures NatCompare(o, h, InText(a), InText(b)) == Smaller(o)
  {
    assert NatToDecimal(2) == "2";
    assert NatToDecimal(10) == "10";
    assert IsWord(a);
    assert a + NatToDecimal(2) == b;
    assert a + NatToDecimal(10) == c;
    WordNumberOrder(o, h, a, 2, 10);
    WordBeforeNumbered(o, h, a, 2);
  }

  /** A number against a word: the number is no NaN, the word is, so the number comes first. */
  lemma JudgeNumberWord(h: Host, w: string, n: int)
    requires IsWord(w)
    ensures Judge(h, Num(n), Text(w), true) == Before
    ensures Judge(h, Text(w), Num(n), true) == After
  {
    WordKey(w, 1);
  }

  /** One key per side: the loop returns that pair's verdict. */
  lemma LoopOnlyDecides(g: int, h: Host, a: Key, b: Key)
    requires Judge(h, a, b, true) != Undecided
    ensures LoopFrom(g, Verdicts(h, [a], [b]), 0) == Outcome(g, Judge(h, a, b, true))
  {
    assert Verdicts(h, [a], [b])[0] == Judge(h, a, b, true);
  }

  /** A number against a word: the single verdicts. */
  lemma LoopNumberWord(g: int, h: Host, w: string, n: int)
    requires IsWord(w)
    ensures LoopFrom(g, Verdicts(h, [Num(n)], [Text(w)]), 0) == -g
    ensures LoopFrom(g, Verdicts(h, [Text(w)], [Num(n)]), 0) == g
  {
    JudgeNumberWord(h, w, n);
    LoopOnlyDecides(g, h, Num(n), Text(w));
    LoopOnlyDecides(g, h, Text(w), Num(n));
  }

  lemma CompareNumberWord(g: int, h: Host, w: string, n: nat)
    requires IsWord(w) && n >= 1
    ensures CompareNormal(g, h, NatToDecimal(n), w) == -g
    ensures CompareNormal(g, h, w, NatToDecimal(n)) == g
  {
    var d := NatToDecimal(n);
    NumeralShape(n);
    NumberKeys(n);
    WordKeys(w);
    assert !IsHexLiteral(w);
    assert Tokenize(d) == [d] by { TokensNumber(d); }
    WordTokens(w);
    assert FastPath(h, d, w, 1) == None;
    assert FastPath(h, w, d, 1) == None;
    LoopNumberWord(g, h, w, n);
  }

  /** Numbers come before text: a number is SMALLER than a word. */
  lemma NumbersBeforeWords(o: SortOptions, h: Host, w: string, n: nat)
    requires IsWord(w) && 1 <= n < DecimalLimit
    ensures NatCompare(o, h, InNumber(n), InText(w)) == Smaller(o)
    ensures NatCompare(o, h, InText(w), InNumber(n)) == Greater(o)
  {
    var d := NatToDecimal(n);
    NumberNormalForm(o, n);
    NormalizeLowerAlnum(o, w);
    CompareNumberWord(Greater(o), h, w, n);
    assert NatCompare(o, h, InNumber(n), InText(w)) == CompareNormal(Greater(o), h, d, w);
    assert NatCompare(o, h, InText(w), InNumber(n)) == CompareNormal(Greater(o), h, w, d);
  }

  /** A positive number normalises to its decimal numeral. */
  lemma NumberNormalForm(o: SortOptions, n: nat)
    requires 1 <= n < DecimalLimit
    ensures Normalize(o, InNumber(n)) == NatToDecimal(n)
  {
    var d := NatToDecimal(n);
    assert StringOf(InNumber(n)) == d;
    assert forall i :: 0 <= i < |d| ==> IsDigit(d[i]);
    NormalizeLowerAlnum(o, d);
    assert Normalize(o, InText(d)) == Normalize(o, InNumber(n));
  }

  // The hexadecimal fast path

  /**
   * Two hexadecimal literals are ordered by value, equal values giving 0;
   * when the second is worth 0 the fast path is skipped for the loop.
   */
  lemma HexFastPath(o: SortOptions, h: Host, a: Input, b: Input)
    requires IsHexLiteral(Normalize(o, a)) && IsHexLiteral(Normalize(o, b))
    ensures var va, vb := HexValue(Normalize(o, a)[2..]), HexValue(Normalize(o, b)[2..]);
      vb != 0 ==> NatCompare(o, h, a, b) == if va == vb then 0 else if va < vb then Smaller(o) else Greater(o)
    ensures HexValue(Normalize(o, b)[2..]) == 0 ==>
      NatCompare(o, h, a, b) ==
        LoopFrom(Greater(o), Verdicts(h, Keys(Tokenize(Normalize(o, a))), Keys(Tokenize(Normalize(o, b)))), 0)
  {
    var aa, bb := Normalize(o, a), Normalize(o, b);
    CompareHex(Greater(o), h, aa, bb);
    assert NatCompare(o, h, a, b) == CompareNormal(Greater(o), h, aa, bb);
  }

  lemma CompareHex(g: int, h: Host, aa: string, bb: string)
    requires IsHexLiteral(aa) && IsHexLiteral(bb)
    ensures var va, vb := HexValue(aa[2..]), HexValue(bb[2..]);
      vb != 0 ==> CompareNormal(g, h, aa, bb) == if va == vb then 0 else if va < vb then -g else g
    ensures HexValue(bb[2..]) == 0 ==>
      CompareNormal(g, h, aa, bb) == LoopFrom(g, Verdicts(h, Keys(Tokenize(aa)), Keys(Tokenize(bb))), 0)
  {
    var va, vb := HexValue(aa[2..]), HexValue(bb[2..]);
    var fast := FastPath(h, aa, bb, |Tokenize(aa)|);
    assert vb != 0 ==> fast == Some((va, vb));
    assert vb == 0 ==> fast == None;
  }

  lemma HexExampleLower(a: string, b: string)
    requires a == "0x1F" && b == "0x20"
    ensures Lower(a) == "0x1f" && Lower(b) == b
  {
    assert a == "0x1" + "F";
    LowerAppend("0x1", "F");
    LowerKeeps("0x1");
    LowerKeeps(b);
  }

  lemma HexExampleNoSpace(s: string)
    requires s == "0x1f" || s == "0x20"
    ensures HasNoSpace(s)
  {
    forall i | 0 <= i < |s| ensures !IsSpace(s[i]) {
      assert s[i] == '0' || s[i] == 'x' || s[i] == '1' || s[i] == 'f' || s[i] == '2';
    }
  }

  /** Case-insensitive normalisation of a value whose lower-case form has no blank. */
  lemma NormalizeNoSpace(o: SortOptions, s: string)
    requires !CaseSensitive(o) && HasNoSpace(Lower(s))
    ensures Normalize(o, InText(s)) == Lower(s)
  {
    NoSpaceUnchanged(Lower(s));
  }

  lemma HexExampleValues(x: string, y: string)
    requires x == "1f" && y == "20"
    ensures HexValue(x) == 31 && HexValue(y) == 32
  {
    assert x[..1] == "1" && x[1] == 'f' && x[..1][..0] == [];
    assert y[..1] == "2" && y[1] == '0' && y[..1][..0] == [];
    assert HexValue(x[..1]) == 1;
    assert HexValue(y[..1]) == 2;
  }

  lemma HexExampleLiterals(x: string, y: string)
    requires x == "0x1f" && y == "0x20"
    ensures IsHexLiteral(x) && IsHexLiteral(y)
    ensures HexValue(x[2..]) == 31 && HexValue(y[2..]) == 32
  {
    assert x[2..] == "1f" && y[2..] == "20";
    HexExampleValues(x[2..], y[2..]);
    assert AllHexDigits(x[2..]) && AllHexDigits(y[2..]);
  }

  /** `"0x1F"` sorts before `"0x20"`: 31 < 32. */
  lemma HexExample(o: SortOptions, h: Host, a: string, b: string)
    requires a == "0x1F" && b == "0x20" && !CaseSensitive(o)
    ensures NatCompare(o, h, InText(a), InText(b)) == Smaller(o)
  {
    HexExampleLower(a, b);
    HexExampleNoSpace(Lower(a));
    HexExampleNoSpace(Lower(b));
    NormalizeNoSpace(o, a);
    NormalizeNoSpace(o, b);
    var aa, bb := Normalize(o, InText(a)), Normalize(o, InText(b));
    assert aa == "0x1f";
    assert bb == "0x20";
    HexExampleLiterals(aa, bb);
    HexFastPath(o, h, InText(a), InText(b));
  }
}
