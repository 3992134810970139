/**
 * The `withGlobals` wrapper of src/withGlobals.ts: a value held in the
 * field `_`, predicates about that value, a deep equality, and mutators
 * that rewrite the field and return the wrapper for chaining.
 */
module Globals {
  import opened Text

  // ---------------------------------------------------------------------
  // JavaScript values
  // ---------------------------------------------------------------------

  /**
   * A JavaScript value. Numbers are integers. Arrays, plain objects and
   * functions are references: `ref` is the identity that `===` compares.
   * An object is its list of own entries in key order.
   */
  datatype JsVal =
    | Undefined
    | Null
    | Bool(b: bool)
    | Num(n: int)
    | Str(s: string)
    | Arr(elems: seq<JsVal>, ref: nat)
    | Obj(props: seq<Prop>, ref: nat)
    | Func(source: string, ref: nat)

  /** One own property of an object. */
  datatype Prop = Prop(key: string, val: JsVal)

  /** `typeof v === 'object'`: null, arrays and plain objects. */
  predicate TypeofObject(v: JsVal)
  {
    v.Null? || v.Arr? || v.Obj?
  }

  /** `a === b`: primitives by value, arrays, objects and functions by reference. */
  predicate StrictEq(a: JsVal, b: JsVal)
  {
    if a.Arr? then b.Arr? && a.ref == b.ref
    else if a.Obj? then b.Obj? && a.ref == b.ref
    else if a.Func? then b.Func? && a.ref == b.ref
    else a == b
  }

  /** The position of the first entry with key `k`, or -1 when there is none. */
  function KeyIndex(ps: seq<Prop>, k: string): (i: int)
    ensures -1 <= i < |ps|
    ensures i >= 0 ==> ps[i].key == k && forall j :: 0 <= j < i ==> ps[j].key != k
    ensures i < 0 ==> forall j :: 0 <= j < |ps| ==> ps[j].key != k
  {
    if ps == [] then -1
    else if ps[0].key == k then 0
    else
      var j := KeyIndex(ps[1..], k);
      if j < 0 then -1 else j + 1
  }

  /** `obj[k]`: the value of the entry with key `k`, `undefined` when there is none. */
  function Get(ps: seq<Prop>, k: string): JsVal
  {
    var i := KeyIndex(ps, k);
    if i < 0 then Undefined else ps[i].val
  }

  /** `Object.keys(obj)` */
  function KeyList(ps: seq<Prop>): (ks: seq<string>)
    ensures |ks| == |ps|
    ensures forall i :: 0 <= i < |ps| ==> ks[i] == ps[i].key
  {
    if ps == [] then [] else [ps[0].key] + KeyList(ps[1..])
  }

  /** The set of keys of an object. */
  function KeySet(ps: seq<Prop>): set<string>
  {
    if ps == [] then {} else {ps[0].key} + KeySet(ps[1..])
  }

  /** No two entries share a key, as in every JavaScript object. */
  predicate DistinctKeys(ps: seq<Prop>)
  {
    forall i, j :: 0 <= i < j < |ps| ==> ps[i].key != ps[j].key
  }

  // ---------------------------------------------------------------------
  // equals / deepEqual
  // ---------------------------------------------------------------------

  /**
   * `deepEqual(x, y)`: strictly equal values are equal; otherwise both
   * must be non-null objects, and then two arrays are equal when their
   * lengths agree and their elements are pairwise equal, and two plain
   * objects when they have as many keys and every key of `x` is a key of
   * `y` with an equal value. Anything else is unequal.
   */
  predicate DeepEq(x: JsVal, y: JsVal)
    decreases x, 1
  {
    if StrictEq(x, y) then true
    else if x.Null? || !TypeofObject(x) || y.Null? || !TypeofObject(y) then false
    else if x.Arr? && y.Arr? then
      |x.elems| == |y.elems| &&
      forall i :: 0 <= i < |x.elems| ==> DeepEq(x.elems[i], y.elems[i])
    else if x.Obj? && y.Obj? then
      |x.props| == |y.props| &&
      forall i :: 0 <= i < |x.props| ==> EntryMatches(x, y, i)
    else false
  }

  /** The `i`-th key of object `x` is a key of `y`, with a deeply equal value. */
  predicate EntryMatches(x: JsVal, y: JsVal, i: nat)
    requires x.Obj? && y.Obj? && i < |x.props|
    decreases x, 0
  {
    var j := KeyIndex(y.props, x.props[i].key);
    j >= 0 && DeepEq(x.props[i].val, y.props[j].val)
  }

  /** `deepEqual` as written: early returns out of a loop over indices or keys. */
  method DeepEqual(x: JsVal, y: JsVal) returns (r: bool)
    ensures r == DeepEq(x, y)
    decreases x, 1
  {
    if StrictEq(x, y) {
      return true;
    }
    if x.Null? || !TypeofObject(x) || y.Null? || !TypeofObject(y) {
      return false;
    }
    if x.Arr? && y.Arr? {
      r := ArraysDeepEqual(x, y);
    } else if x.Obj? && y.Obj? {
      r := ObjectsDeepEqual(x, y);
    } else {
      r := false;
    }
  }

  /** The array branch of `deepEqual`: lengths, then elements in order. */
  method ArraysDeepEqual(x: JsVal, y: JsVal) returns (r: bool)
    requires x.Arr? && y.Arr? && !StrictEq(x, y)
    ensures r == DeepEq(x, y)
    decreases x, 0
  {
    if |x.elems| != |y.elems| {
      return false;
    }
    var i := 0;
    while i < |x.elems|
      invariant 0 <= i <= |x.elems|
      invariant forall k :: 0 <= k < i ==> DeepEq(x.elems[k], y.elems[k])
    {
      var same := DeepEqual(x.elems[i], y.elems[i]);
      if !same {
        return false;
      }
      i := i + 1;
    }
    return true;
  }

  /** The object branch of `deepEqual`: key counts, then each key of `x` in order. */
  method ObjectsDeepEqual(x: JsVal, y: JsVal) returns (r: bool)
    requires x.Obj? && y.Obj? && !StrictEq(x, y)
    ensures r == DeepEq(x, y)
    decreases x, 0
  {
    var keys1 := KeyList(x.props);
    var keys2 := KeyList(y.props);
    if |keys1| != |keys2| {
      return false;
    }
    var i := 0;
    while i < |keys1|
      invariant 0 <= i <= |keys1|
      invariant forall k :: 0 <= k < i ==> EntryMatches(x, y, k)
    {
      var key := keys1[i];
      var j := KeyIndex(y.props, key);
      if j < 0 {
        assert !EntryMatches(x, y, i);
        return false;
      }
      var same := DeepEqual(x.props[i].val, y.props[j].val);
      if !same {
        assert !EntryMatches(x, y, i);
        return false;
      }
      i := i + 1;
    }
    return true;
  }

  /**
   * `equals(v)` on the held value `a`: two arrays or two plain objects are
   * compared deeply, anything else strictly.
   */
  predicate Equal(a: JsVal, b: JsVal)
  {
    if a.Arr? && b.Arr? then DeepEq(a, b)
    else if a.Obj? && b.Obj? then DeepEq(a, b)
    else StrictEq(a, b)
  }

  /** The dispatch in `equals` changes nothing: it is `deepEqual` on every pair. */
  lemma EqualIsDeepEq(a: JsVal, b: JsVal)
    ensures Equal(a, b) == DeepEq(a, b)
  {
    if !(a.Arr? && b.Arr?) && !(a.Obj? && b.Obj?) && !StrictEq(a, b) {
      assert !DeepEq(a, b);
    }
  }

  /** Arrays are equal iff they are the same array or agree in length and element by element. */
  lemma ArraysEqual(xs: seq<JsVal>, i: nat, ys: seq<JsVal>, j: nat)
    ensures Equal(Arr(xs, i), Arr(ys, j)) <==>
      i == j || (|xs| == |ys| && forall k :: 0 <= k < |xs| ==> Equal(xs[k], ys[k]))
  {
    forall k | 0 <= k < |xs| && k < |ys|
      ensures Equal(xs[k], ys[k]) == DeepEq(xs[k], ys[k])
    {
      EqualIsDeepEq(xs[k], ys[k]);
    }
  }

  /** An array never equals a plain object, in either order. */
  lemma ArrayIsNotObject(xs: seq<JsVal>, i: nat, ps: seq<Prop>, j: nat)
    ensures !Equal(Arr(xs, i), Obj(ps, j)) && !Equal(Obj(ps, j), Arr(xs, i))
  {
  }

  lemma {:induction false} KeySetHasKey(ps: seq<Prop>, k: string)
    ensures k in KeySet(ps) <==> KeyIndex(ps, k) >= 0
  {
    if ps != [] {
      KeySetHasKey(ps[1..], k);
    }
  }

  lemma {:induction false} KeySetSize(ps: seq<Prop>)
    requires DistinctKeys(ps)
    ensures |KeySet(ps)| == |ps|
  {
    if ps != [] {
      KeySetSize(ps[1..]);
      KeySetHasKey(ps[1..], ps[0].key);
    }
  }

  /** Every key of `p` is a key of `q`. */
  predicate Covers(p: seq<Prop>, q: seq<Prop>)
  {
    forall k :: 0 <= k < |p| ==> KeyIndex(q, p[k].key) >= 0
  }

  /** Under every key of `p`, `q` holds an equal value. */
  predicate ValuesMatch(p: seq<Prop>, q: seq<Prop>)
  {
    forall k :: 0 <= k < |p| ==> Equal(p[k].val, Get(q, p[k].key))
  }

  lemma ObjectsDeepEq(p: seq<Prop>, i: nat, q: seq<Prop>, j: nat)
    requires i != j
    ensures DeepEq(Obj(p, i), Obj(q, j)) <==> |p| == |q| && Covers(p, q) && ValuesMatch(p, q)
  {
    forall k | 0 <= k < |p|
      ensures EntryMatches(Obj(p, i), Obj(q, j), k) <==>
        KeyIndex(q, p[k].key) >= 0 && Equal(p[k].val, Get(q, p[k].key))
    {
      EqualIsDeepEq(p[k].val, Get(q, p[k].key));
    }
  }

  lemma CoversSameKeys(p: seq<Prop>, q: seq<Prop>)
    requires DistinctKeys(p) && DistinctKeys(q)
    ensures (|p| == |q| && Covers(p, q)) <==> KeySet(p) == KeySet(q)
  {
    KeySetSize(p);
    KeySetSize(q);
    forall key
      ensures key in KeySet(p) <==> KeyIndex(p, key) >= 0
      ensures key in KeySet(q) <==> KeyIndex(q, key) >= 0
    {
      KeySetHasKey(p, key);
      KeySetHasKey(q, key);
    }
    if |p| == |q| && Covers(p, q) {
      assert KeySet(p) <= KeySet(q) by {
        forall key | key in KeySet(p) ensures key in KeySet(q) {
          var m := KeyIndex(p, key);
          assert p[m].key == key;
        }
      }
      SubsetOfSameSize(KeySet(p), KeySet(q));
    }
    if KeySet(p) == KeySet(q) {
      forall k | 0 <= k < |p| ensures KeyIndex(q, p[k].key) >= 0 {
        assert KeyIndex(p, p[k].key) >= 0;
      }
    }
  }

  /**
   * Plain objects are equal iff they are the same object or have the same
   * set of keys, in whatever order, with equal values under each key.
   */
  lemma ObjectsEqual(p: seq<Prop>, i: nat, q: seq<Prop>, j: nat)
    requires DistinctKeys(p) && DistinctKeys(q)
    ensures Equal(Obj(p, i), Obj(q, j)) <==>
      i == j || (KeySet(p) == KeySet(q) && forall k :: 0 <= k < |p| ==> Equal(p[k].val, Get(q, p[k].key)))
  {
    if i != j {
      ObjectsDeepEq(p, i, q, j);
      CoversSameKeys(p, q);
    }
  }

  lemma SubsetOfSameSize<T>(a: set<T>, b: set<T>)
    requires a <= b && |a| == |b|
    ensures a == b
  {
    if a != b {
      assert exists x :: x in b && x !in a;
      var x :| x in b && x !in a;
      SubsetSize(a, b - {x});
    }
  }

  lemma SubsetSize<T>(a: set<T>, b: set<T>)
    requires a <= b
    ensures |a| <= |b|
    decreases a
  {
    if a != {} {
      var y :| y in a;
      SubsetSize(a - {y}, b - {y});
    }
  }

  // ---------------------------------------------------------------------
  // String conversion
  // ---------------------------------------------------------------------

  /**
   * `String(v)`: arrays are joined with commas, `undefined` and `null`
   * elements giving nothing; a plain object is `[object Object]`; a
   * function is its source text.
   */
  function StringOf(v: JsVal): string
    decreases v, 1
  {
    match v
    case Undefined => "undefined"
    case Null => "null"
    case Bool(b) => if b then "true" else "false"
    case Num(n) => IntToDecimal(n)
    case Str(s) => s
    case Arr(xs, _) => if xs == [] then "" else JoinFrom(v, 0)
    case Obj(_, _) => "[object Object]"
    case Func(src, _) => src
  }

  /** `Array.prototype.join(',')` from element `i` on. */
  function JoinFrom(v: JsVal, i: nat): string
    requires v.Arr? && i < |v.elems|
    decreases v, 0, |v.elems| - i
  {
    var e := v.elems[i];
    (if e.Undefined? || e.Null? then "" else StringOf(e)) +
    (if i + 1 == |v.elems| then "" else "," + JoinFrom(v, i + 1))
  }

  // ---------------------------------------------------------------------
  // isEmpty, isObject, isNumber
  // ---------------------------------------------------------------------

  /**
   * `isEmpty()`: an array or plain object without entries, or a value
   * that is `""` or whose string form is empty.
   */
  predicate IsEmptyValue(v: JsVal)
  {
    if v.Arr? then |v.elems| == 0
    else if TypeofObject(v) && !v.Null? then |v.props| == 0
    else v == Str("") || |StringOf(v)| == 0
  }

  /**
   * The empty values are exactly `""`, `[]`, `{}` and a function with no
   * source text; in particular `null`, `undefined`, `0` and `false` are not.
   */
  lemma EmptyValues(v: JsVal)
    ensures IsEmptyValue(v) <==>
      v == Str("") || (v.Arr? && v.elems == []) || (v.Obj? && v.props == []) || (v.Func? && v.source == "")
  {
    if v.Num? {
      assert |IntToDecimal(v.n)| > 0;
    }
  }

  /** `isObject()`: `typeof v === 'object'`, not an array and not null. */
  predicate IsObjectValue(v: JsVal)
  {
    TypeofObject(v) && !v.Arr? && !v.Null?
  }

  /** Only a plain object is an object in the sense of `isObject()`. */
  lemma ObjectsOnly(v: JsVal)
    ensures IsObjectValue(v) <==> v.Obj?
  {
  }

  /** The length of an optional leading `+` or `-`. */
  function SignLength(t: string): (n: nat)
    ensures n <= |t|
  {
    if t != [] && (t[0] == '+' || t[0] == '-') then 1 else 0
  }

  /** `\d+(\.\d+)?` matching the whole of `u`. */
  predicate UnsignedNumber(u: string)
  {
    var n := DigitRun(u);
    n > 0 && (n == |u| || (u[n] == '.' && n + 1 < |u| && AllDigits(u[n + 1..])))
  }

  /** `/^[+-]?\d+(\.\d+)?$/.test(t)` */
  predicate NumberText(t: string)
  {
    UnsignedNumber(t[SignLength(t)..])
  }

  /** `isNumber()`: the string form of the value matches the number pattern. */
  predicate IsNumberValue(v: JsVal)
  {
    NumberText(StringOf(v))
  }

  /** The text of an optional fraction. */
  function FractionText(frac: string): string
  {
    if frac == [] then "" else "." + frac
  }

  lemma Regroup(t: string, a: string, b: string, c: string)
    requires t == a + (b + c)
    ensures t == a + b + c
  {
  }

  lemma UnsignedAccepts(whole: string, frac: string)
    requires whole != [] && AllDigits(whole) && AllDigits(frac)
    ensures UnsignedNumber(whole + FractionText(frac))
  {
    var tail := FractionText(frac);
    DigitRunOf(whole, tail);
    if frac != [] {
      var u := whole + tail;
      assert u[|whole|] == '.';
      assert u[|whole| + 1..] == frac;
    }
  }

  lemma SignSplit(sign: string, u: string)
    requires sign == "" || sign == "+" || sign == "-"
    requires u != [] && IsDigit(u[0])
    ensures (sign + u)[SignLength(sign + u)..] == u
  {
    assert SignLength(sign + u) == |sign|;
  }

  /** Written from a sign, an integer part and a fraction, a number is accepted. */
  lemma NumberTextAccepts(sign: string, whole: string, frac: string)
    requires sign == "" || sign == "+" || sign == "-"
    requires whole != [] && AllDigits(whole) && AllDigits(frac)
    ensures NumberText(sign + whole + FractionText(frac))
  {
    var u := whole + FractionText(frac);
    Regroup(sign + u, sign, whole, FractionText(frac));
    SignSplit(sign, u);
    UnsignedAccepts(whole, frac);
  }

  lemma UnsignedParts(u: string) returns (whole: string, frac: string)
    requires UnsignedNumber(u)
    ensures whole != [] && AllDigits(whole) && AllDigits(frac)
    ensures u == whole + FractionText(frac)
  {
    var n := DigitRun(u);
    whole := u[..n];
    var rest := u[n..];
    assert u == whole + rest;
    if n == |u| {
      frac := [];
      assert rest == "";
    } else {
      frac := u[n + 1..];
      assert rest == "." + frac;
    }
  }

  /** Every accepted text is a sign, an integer part and an optional fraction. */
  lemma NumberTextParts(t: string) returns (sign: string, whole: string, frac: string)
    requires NumberText(t)
    ensures sign == "" || sign == "+" || sign == "-"
    ensures whole != [] && AllDigits(whole) && AllDigits(frac)
    ensures t == sign + whole + FractionText(frac)
  {
    var k := SignLength(t);
    sign := t[..k];
    if k == 1 {
      assert sign == [t[0]];
    }
    CutAt(t, k);
    whole, frac := UnsignedParts(t[k..]);
    Regroup(t, sign, whole, FractionText(frac));
  }

  /** Every integer number passes `isNumber()`. */
  lemma IntegersAreNumbers(n: int)
    requires -DecimalLimit < n < DecimalLimit
    ensures IsNumberValue(Num(n))
  {
    var t := IntToDecimal(n);
    if n < 0 {
      assert t == "-" + t[1..];
      NumberTextAccepts("-", t[1..], "");
    } else {
      NumberTextAccepts("", t, "");
    }
  }

  /** A trailing point, a missing integer part and an exponent are refused. */
  lemma NumberRejects()
    ensures !NumberText("1.") && !NumberText(".5") && !NumberText("1e5")
  {
    assert "1."[1..] == ".";
    assert ".5"[0] == '.';
    assert "1e5"[1..][0] == 'e';
  }

  // ---------------------------------------------------------------------
  // formatString
  // ---------------------------------------------------------------------

  /** A value that `values[k]?.toString()` turns into a non-empty string. */
  predicate Usable(v: JsVal)
  {
    !v.Undefined? && !v.Null? && StringOf(v) != ""
  }

  /** `values[Number(index)]?.toString() || '%' + index` */
  function Replacement(index: string, values: seq<JsVal>): string
    requires AllDigits(index)
  {
    var k := DigitsValue(index);
    if k < |values| && Usable(values[k]) then StringOf(values[k]) else "%" + index
  }

  /**
   * `s.replace(/%(\d+)/g, ...)`: a scan from the left; each `%` followed by
   * a maximal run of digits is replaced, and the replacement text is not
   * scanned again.
   */
  function Format(s: string, values: seq<JsVal>): string
    decreases |s|
  {
    if s == [] then []
    else if s[0] == '%' && DigitRun(s[1..]) > 0 then
      var n := DigitRun(s[1..]);
      assert s[1..n + 1] == s[1..][..n];
      Replacement(s[1..n + 1], values) + Format(s[n + 1..], values)
    else [s[0]] + Format(s[1..], values)
  }

  /** When no value can stand in for a placeholder, every `%N` is kept as written. */
  lemma {:induction false} FormatKeepsPlaceholders(s: string, values: seq<JsVal>)
    requires forall k :: 0 <= k < |values| ==> !Usable(values[k])
    ensures Format(s, values) == s
    decreases |s|
  {
    if s == [] {
    } else if s[0] == '%' && DigitRun(s[1..]) > 0 {
      var n := DigitRun(s[1..]);
      FormatKeepsPlaceholders(s[n + 1..], values);
      PlaceholderSplit(s, n);
    } else {
      FormatKeepsPlaceholders(s[1..], values);
      assert s == [s[0]] + s[1..];
    }
  }

  lemma PlaceholderSplit(s: string, n: nat)
    requires s != [] && s[0] == '%' && n + 1 <= |s|
    ensures s == "%" + s[1..n + 1] + s[n + 1..]
  {
    assert s == [s[0]] + s[1..n + 1] + s[n + 1..];
  }

  /** Text without `%` passes through unchanged. */
  lemma {:induction false} FormatPlainPrefix(pre: string, rest: string, values: seq<JsVal>)
    requires '%' !in pre
    ensures Format(pre + rest, values) == pre + Format(rest, values)
  {
    if pre != [] {
      var t := pre + rest;
      assert pre[0] in pre;
      assert t[0] == pre[0] && t[1..] == pre[1..] + rest;
      assert Format(t, values) == [t[0]] + Format(t[1..], values);
      FormatPlainPrefix(pre[1..], rest, values);
      HeadTail(pre, Format(rest, values));
    } else {
      assert pre + rest == rest;
    }
  }

  /**
   * `%k` written in decimal, with no digit after it, becomes the string
   * form of `values[k]` when that is a usable value.
   */
  lemma FormatSubstitutes(pre: string, k: nat, post: string, values: seq<JsVal>)
    requires '%' !in pre
    requires k < |values| && Usable(values[k])
    requires post == [] || !IsDigit(post[0])
    ensures Format(pre + "%" + NatToDecimal(k) + post, values) == pre + StringOf(values[k]) + Format(post, values)
  {
    var d := NatToDecimal(k);
    var rest := "%" + d + post;
    Regroup4(pre, "%", d, post);
    FormatPlainPrefix(pre, rest, values);
    DigitRunOf(d, post);
    PlaceholderAt(rest, d, post, values);
    Regroup(pre + Format(rest, values), pre, StringOf(values[k]), Format(post, values));
  }

  lemma Regroup4(a: string, b: string, c: string, d: string)
    ensures a + b + c + d == a + (b + c + d)
  {
  }

  lemma PlaceholderAt(rest: string, d: string, post: string, values: seq<JsVal>)
    requires rest == "%" + d + post
    requires d != [] && DigitRun(d + post) == |d|
    ensures Format(rest, values) == Replacement(d, values) + Format(post, values)
  {
    assert rest[1..] == d + post;
    assert rest[1..|d| + 1] == d;
    assert rest[|d| + 1..] == post;
  }

  // ---------------------------------------------------------------------
  // camelCase
  // ---------------------------------------------------------------------

  /**
   * `camelCase()` on a string: split at runs of characters outside
   * `[a-zA-Z0-9]`, upper-case the first character of every word after the
   * first, and join.
   */
  function CamelCased(s: string): string
  {
    CamelJoin(SplitWords(s), false)
  }

  /**
   * The result holds only `[A-Za-z0-9]`, differs from the alphanumerics of
   * the input only in letter case, and begins with the first word as it was.
   */
  lemma CamelCasedProperties(s: string)
    ensures AllAlnum(CamelCased(s))
    ensures Lower(CamelCased(s)) == Lower(KeepAlnum(s))
    ensures |SplitWords(s)[0]| <= |CamelCased(s)| && CamelCased(s)[..|SplitWords(s)[0]|] == SplitWords(s)[0]
  {
    SplitWordsAlnum(s);
    SplitWordsConcat(s);
    CamelJoinProperties(SplitWords(s), false);
  }

  /**
   * At a run of separators between a word and the rest, the word is kept
   * as it is and the rest is camel-cased as later words: each of its
   * words capitalised.
   */
  lemma CamelCasedBoundary(w: string, sep: string, rest: string)
    requires AllAlnum(w)
    requires sep != [] && forall i :: 0 <= i < |sep| ==> !IsAlnum(sep[i])
    requires rest == [] || IsAlnum(rest[0])
    ensures CamelCased(w + sep + rest) == w + JoinCapitalised(SplitWords(rest))
  {
    SplitWordsBoundary(w, sep, rest);
    CamelJoinCons(w, SplitWords(rest), false);
  }

  /** Two words and a separator: `"foo-bar"` becomes `"fooBar"`. */
  lemma CamelCasedTwoWords(w0: string, sep: string, w1: string)
    requires AllAlnum(w0) && AllAlnum(w1) && w1 != []
    requires sep != [] && forall i :: 0 <= i < |sep| ==> !IsAlnum(sep[i])
    ensures CamelCased(w0 + sep + w1) == w0 + UcFirst(w1)
  {
    CamelCasedBoundary(w0, sep, w1);
    SplitWordsWord(w1);
    CamelJoinCons(w1, [], false);
    assert [w1] + [] == [w1];
    assert UcFirst(w1) + "" == UcFirst(w1);
  }

  // ---------------------------------------------------------------------
  // sort
  // ---------------------------------------------------------------------

  /** `'asc'` or `'desc'`. */
  datatype Order = Asc | Desc

  /** The comparator given to `sort`: `a.localeCompare(b)`, or `b.localeCompare(a)` for `'desc'`. */
  function Compare(order: Order, collate: (string, string) -> int, a: string, b: string): int
  {
    if order == Desc then collate(b, a) else collate(a, b)
  }

  /** `k` placed after every key that does not compare greater than it. */
  function Insert(k: string, ks: seq<string>, order: Order, collate: (string, string) -> int): (r: seq<string>)
    ensures multiset(r) == multiset(ks) + multiset{k}
  {
    if ks == [] then [k]
    else if Compare(order, collate, k, ks[0]) < 0 then [k] + ks
    else
      assert ks == [ks[0]] + ks[1..];
      [ks[0]] + Insert(k, ks[1..], order, collate)
  }

  /** `keys.sort(comparator)`: a stable sort, written as insertion sort. */
  function SortKeys(ks: seq<string>, order: Order, collate: (string, string) -> int): (r: seq<string>)
    ensures multiset(r) == multiset(ks)
  {
    if ks == [] then []
    else
      assert ks == ks[..|ks| - 1] + [ks[|ks| - 1]];
      Insert(ks[|ks| - 1], SortKeys(ks[..|ks| - 1], order, collate), order, collate)
  }

  /** What `localeCompare` guarantees: a consistent, transitive comparison. */
  ghost predicate Consistent(collate: (string, string) -> int)
  {
    (forall a, b :: collate(a, b) < 0 <==> collate(b, a) > 0) &&
    (forall a, b, c :: collate(a, b) <= 0 && collate(b, c) <= 0 ==> collate(a, c) <= 0)
  }

  predicate Sorted(ks: seq<string>, order: Order, collate: (string, string) -> int)
  {
    forall i, j :: 0 <= i < j < |ks| ==> Compare(order, collate, ks[i], ks[j]) <= 0
  }

  lemma CompareFlip(order: Order, collate: (string, string) -> int, a: string, b: string)
    requires Consistent(collate)
    requires Compare(order, collate, a, b) >= 0
    ensures Compare(order, collate, b, a) <= 0
  {
  }

  lemma CompareTrans(order: Order, collate: (string, string) -> int, a: string, b: string, c: string)
    requires Consistent(collate)
    requires Compare(order, collate, a, b) <= 0 && Compare(order, collate, b, c) <= 0
    ensures Compare(order, collate, a, c) <= 0
  {
  }

  lemma ConsSorted(x: string, ys: seq<string>, order: Order, collate: (string, string) -> int)
    requires Sorted(ys, order, collate)
    requires forall j :: 0 <= j < |ys| ==> Compare(order, collate, x, ys[j]) <= 0
    ensures Sorted([x] + ys, order, collate)
  {
    var r := [x] + ys;
    forall i, j | 0 <= i < j < |r| ensures Compare(order, collate, r[i], r[j]) <= 0 {
      assert r[j] == ys[j - 1];
      if i > 0 {
        assert r[i] == ys[i - 1];
      }
    }
  }

  lemma InsertedFrom(k: string, ks: seq<string>, order: Order, collate: (string, string) -> int, j: nat)
    requires j < |Insert(k, ks, order, collate)|
    ensures var e := Insert(k, ks, order, collate)[j]; e == k || e in ks
  {
    var r := Insert(k, ks, order, collate);
    assert r[j] in multiset(r);
  }

  lemma {:induction false} InsertSorted(k: string, ks: seq<string>, order: Order, collate: (string, string) -> int)
    requires Consistent(collate) && Sorted(ks, order, collate)
    ensures Sorted(Insert(k, ks, order, collate), order, collate)
  {
    if ks == [] {
    } else if Compare(order, collate, k, ks[0]) < 0 {
      forall j | 0 <= j < |ks| ensures Compare(order, collate, k, ks[j]) <= 0 {
        if j > 0 {
          CompareTrans(order, collate, k, ks[0], ks[j]);
        }
      }
      ConsSorted(k, ks, order, collate);
    } else {
      var rest := Insert(k, ks[1..], order, collate);
      InsertSorted(k, ks[1..], order, collate);
      CompareFlip(order, collate, k, ks[0]);
      forall j | 0 <= j < |rest| ensures Compare(order, collate, ks[0], rest[j]) <= 0 {
        InsertedFrom(k, ks[1..], order, collate, j);
        if rest[j] != k {
          var m :| 0 <= m < |ks[1..]| && ks[1..][m] == rest[j];
          assert ks[m + 1] == rest[j];
        }
      }
      ConsSorted(ks[0], rest, order, collate);
    }
  }

  /** With a consistent collator the keys come out in order, descending for `'desc'`. */
  lemma {:induction false} SortKeysSorted(ks: seq<string>, order: Order, collate: (string, string) -> int)
    requires Consistent(collate)
    ensures Sorted(SortKeys(ks, order, collate), order, collate)
  {
    if ks != [] {
      SortKeysSorted(ks[..|ks| - 1], order, collate);
      InsertSorted(ks[|ks| - 1], SortKeys(ks[..|ks| - 1], order, collate), order, collate);
    }
  }

  /** The keys of `ks` that compare equal to `x`, in their order in `ks`. */
  function Ties(ks: seq<string>, x: string, order: Order, collate: (string, string) -> int): seq<string>
  {
    if ks == [] then []
    else (if Compare(order, collate, ks[0], x) == 0 then [ks[0]] else []) + Ties(ks[1..], x, order, collate)
  }

  lemma TiesCons(y: string, s: seq<string>, x: string, order: Order, collate: (string, string) -> int)
    ensures Ties([y] + s, x, order, collate) ==
            (if Compare(order, collate, y, x) == 0 then [y] else []) + Ties(s, x, order, collate)
  {
    assert ([y] + s)[0] == y && ([y] + s)[1..] == s;
  }

  lemma {:induction false} TiesAppend(a: seq<string>, b: seq<string>, x: string, order: Order, collate: (string, string) -> int)
    ensures Ties(a + b, x, order, collate) == Ties(a, x, order, collate) + Ties(b, x, order, collate)
  {
    if a == [] {
      assert a + b == b;
    } else {
      assert a + b == [a[0]] + (a[1..] + b);
      TiesCons(a[0], a[1..] + b, x, order, collate);
      TiesAppend(a[1..], b, x, order, collate);
      TiesCons(a[0], a[1..], x, order, collate);
      assert a == [a[0]] + a[1..];
    }
  }

  /** A key strictly above one that ties with `x` does not tie with `x`. */
  lemma AboveTie(k: string, x: string, y: string, order: Order, collate: (string, string) -> int)
    requires Consistent(collate)
    requires Compare(order, collate, k, x) == 0 && Compare(order, collate, k, y) < 0
    ensures Compare(order, collate, y, x) != 0
  {
    CompareFlip(order, collate, k, x);
  }

  /** Below-or-equal then strictly below is strictly below. */
  lemma StrictBelow(a: string, b: string, c: string, order: Order, collate: (string, string) -> int)
    requires Consistent(collate)
    requires Compare(order, collate, a, b) < 0 && Compare(order, collate, b, c) <= 0
    ensures Compare(order, collate, a, c) < 0
  {
  }

  /** Nothing ties with `x` in a list whose every key is above some `k` that ties with `x`. */
  lemma {:induction false} NoTies(s: seq<string>, x: string, k: string, order: Order, collate: (string, string) -> int)
    requires Consistent(collate)
    requires Compare(order, collate, k, x) == 0
    requires forall j :: 0 <= j < |s| ==> Compare(order, collate, k, s[j]) < 0
    ensures Ties(s, x, order, collate) == []
  {
    if s != [] {
      AboveTie(k, x, s[0], order, collate);
      NoTies(s[1..], x, k, order, collate);
    }
  }

  /** When `k` goes first, no key after it ties with it. */
  lemma InsertTiesFront(k: string, s: seq<string>, x: string, order: Order, collate: (string, string) -> int)
    requires Consistent(collate) && Sorted(s, order, collate)
    requires s != [] && Compare(order, collate, k, s[0]) < 0
    ensures Ties([k] + s, x, order, collate) ==
            Ties(s, x, order, collate) + (if Compare(order, collate, k, x) == 0 then [k] else [])
  {
    TiesCons(k, s, x, order, collate);
    if Compare(order, collate, k, x) == 0 {
      forall j | 0 <= j < |s| ensures Compare(order, collate, k, s[j]) < 0 {
        if j > 0 {
          StrictBelow(k, s[0], s[j], order, collate);
        }
      }
      NoTies(s, x, k, order, collate);
    }
  }

  /** Insertion places `k` after every key that ties with it. */
  lemma {:induction false} InsertTies(k: string, s: seq<string>, x: string, order: Order, collate: (string, string) -> int)
    requires Consistent(collate) && Sorted(s, order, collate)
    ensures Ties(Insert(k, s, order, collate), x, order, collate) ==
            Ties(s, x, order, collate) + (if Compare(order, collate, k, x) == 0 then [k] else [])
  {
    if s == [] {
      TiesCons(k, [], x, order, collate);
    } else if Compare(order, collate, k, s[0]) < 0 {
      InsertTiesFront(k, s, x, order, collate);
    } else {
      var tail := s[1..];
      assert Sorted(tail, order, collate) by {
        forall i, j | 0 <= i < j < |tail| ensures Compare(order, collate, tail[i], tail[j]) <= 0 {
          assert tail[i] == s[i + 1] && tail[j] == s[j + 1];
        }
      }
      InsertTies(k, tail, x, order, collate);
      InsertAfterHead(k, s, order, collate);
      InsertTiesLater(k, s, x, order, collate, Insert(k, tail, order, collate), Insert(k, s, order, collate));
    }
  }

  lemma InsertAfterHead(k: string, s: seq<string>, order: Order, collate: (string, string) -> int)
    requires s != [] && Compare(order, collate, k, s[0]) >= 0
    ensures Insert(k, s, order, collate) == [s[0]] + Insert(k, s[1..], order, collate)
  {
  }

  /** When `k` goes after the first key, the ties of the rest carry over. */
  lemma InsertTiesLater(k: string, s: seq<string>, x: string, order: Order, collate: (string, string) -> int,
                        rest: seq<string>, r: seq<string>)
    requires s != [] && r == [s[0]] + rest
    requires Ties(rest, x, order, collate) ==
             Ties(s[1..], x, order, collate) + (if Compare(order, collate, k, x) == 0 then [k] else [])
    ensures Ties(r, x, order, collate) ==
            Ties(s, x, order, collate) + (if Compare(order, collate, k, x) == 0 then [k] else [])
  {
    var h := if Compare(order, collate, s[0], x) == 0 then [s[0]] else [];
    var e := if Compare(order, collate, k, x) == 0 then [k] else [];
    var t := Ties(s[1..], x, order, collate);
    TiesCons(s[0], rest, x, order, collate);
    assert Ties(r, x, order, collate) == h + (t + e);
    TiesCons(s[0], s[1..], x, order, collate);
    assert s == [s[0]] + s[1..];
    assert Ties(s, x, order, collate) == h + t;
    Regroup3(h, t, e);
  }

  lemma Regroup3(h: seq<string>, t: seq<string>, e: seq<string>)
    ensures h + (t + e) == (h + t) + e
  {
  }


  /**
   * The sort is stable: the keys that compare equal to any `x` come out in
   * the order they had in `Object.keys`.
   */
  lemma {:induction false} SortKeysStable(ks: seq<string>, x: string, order: Order, collate: (string, string) -> int)
    requires Consistent(collate)
    ensures Ties(SortKeys(ks, order, collate), x, order, collate) == Ties(ks, x, order, collate)
  {
    if ks != [] {
      var init, last := ks[..|ks| - 1], ks[|ks| - 1];
      assert ks == init + [last];
      var sorted := SortKeys(init, order, collate);
      SortKeysStable(init, x, order, collate);
      SortKeysSorted(init, order, collate);
      InsertTies(last, sorted, x, order, collate);
      SortKeysLast(ks, order, collate);
      StableStep(ks, init, last, sorted, Insert(last, sorted, order, collate), x, order, collate);
    }
  }

  lemma SortKeysLast(ks: seq<string>, order: Order, collate: (string, string) -> int)
    requires ks != []
    ensures SortKeys(ks, order, collate) ==
            Insert(ks[|ks| - 1], SortKeys(ks[..|ks| - 1], order, collate), order, collate)
  {
  }

  /** Inserting the last key keeps the ties of the keys before it and adds it at their end. */
  lemma StableStep(ks: seq<string>, init: seq<string>, last: string, sorted: seq<string>, r: seq<string>,
                   x: string, order: Order, collate: (string, string) -> int)
    requires ks == init + [last]
    requires Ties(sorted, x, order, collate) == Ties(init, x, order, collate)
    requires Ties(r, x, order, collate) ==
             Ties(sorted, x, order, collate) + (if Compare(order, collate, last, x) == 0 then [last] else [])
    ensures Ties(r, x, order, collate) == Ties(ks, x, order, collate)
  {
    var e := if Compare(order, collate, last, x) == 0 then [last] else [];
    TiesSingle(last, x, order, collate);
    TiesAppend(init, [last], x, order, collate);
    assert Ties(ks, x, order, collate) == Ties(init, x, order, collate) + e;
  }

  lemma TiesSingle(y: string, x: string, order: Order, collate: (string, string) -> int)
    ensures Ties([y], x, order, collate) == if Compare(order, collate, y, x) == 0 then [y] else []
  {
    TiesCons(y, [], x, order, collate);
    assert [y] + [] == [y];
  }

  /** `out[key] = v`: the entry with that key is overwritten, or a new one is appended. */
  function Put(ps: seq<Prop>, key: string, v: JsVal): seq<Prop>
  {
    var i := KeyIndex(ps, key);
    if i < 0 then ps + [Prop(key, v)] else ps[i := Prop(key, v)]
  }

  /** The first entry with a key is where `KeyIndex` finds it. */
  lemma KeyIndexAt(ps: seq<Prop>, k: string, i: nat)
    requires i < |ps| && ps[i].key == k
    requires forall j :: 0 <= j < i ==> ps[j].key != k
    ensures KeyIndex(ps, k) == i
  {
  }

  /** After `out[key] = v`, the key reads `v` and every other key reads as before. */
  lemma PutGet(ps: seq<Prop>, key: string, v: JsVal, k: string)
    ensures Get(Put(ps, key, v), key) == v
    ensures k != key ==> Get(Put(ps, key, v), k) == Get(ps, k)
  {
    var r := Put(ps, key, v);
    var i := KeyIndex(ps, key);
    var j := KeyIndex(ps, k);
    if i < 0 {
      assert r == ps + [Prop(key, v)];
      KeyIndexAt(r, key, |ps|);
      if k != key {
        if j >= 0 {
          KeyIndexAt(r, k, j);
        } else {
          assert forall m :: 0 <= m < |r| ==> r[m].key != k;
        }
      }
    } else {
      KeyIndexAt(r, key, i);
      if k != key {
        if j >= 0 {
          assert j != i;
          KeyIndexAt(r, k, j);
        } else {
          assert forall m :: 0 <= m < |r| ==> r[m].key != k;
        }
      }
    }
  }

  /** The object the loop `for (const key of keys) out[key] = obj[key]` builds from `{}`. */
  function Rebuild(keys: seq<string>, obj: seq<Prop>): seq<Prop>
  {
    if keys == [] then []
    else Put(Rebuild(keys[..|keys| - 1], obj), keys[|keys| - 1], Get(obj, keys[|keys| - 1]))
  }

  /** One more turn of the loop puts one more key. */
  lemma RebuildStep(keys: seq<string>, obj: seq<Prop>, i: nat)
    requires i < |keys|
    ensures Rebuild(keys[..i + 1], obj) == Put(Rebuild(keys[..i], obj), keys[i], Get(obj, keys[i]))
  {
    assert keys[..i + 1][..i] == keys[..i];
  }

  predicate DistinctSeq(ks: seq<string>)
  {
    forall i, j :: 0 <= i < j < |ks| ==> ks[i] != ks[j]
  }

  lemma {:induction false} RebuildEntries(keys: seq<string>, obj: seq<Prop>)
    requires DistinctSeq(keys)
    ensures |Rebuild(keys, obj)| == |keys|
    ensures forall i :: 0 <= i < |keys| ==> Rebuild(keys, obj)[i] == Prop(keys[i], Get(obj, keys[i]))
  {
    if keys != [] {
      var n := |keys| - 1;
      var front := Rebuild(keys[..n], obj);
      RebuildEntries(keys[..n], obj);
      assert keys[n] !in keys[..n];
      AbsentKey(front, keys[..n], keys[n]);
      assert Rebuild(keys, obj) == front + [Prop(keys[n], Get(obj, keys[n]))];
    }
  }

  lemma AbsentKey(ps: seq<Prop>, ks: seq<string>, k: string)
    requires |ps| == |ks| && forall i :: 0 <= i < |ps| ==> ps[i].key == ks[i]
    requires k !in ks
    ensures KeyIndex(ps, k) < 0
  {
    assert forall i :: 0 <= i < |ps| ==> ps[i].key != k;
  }

  lemma {:induction false} CountInDistinct(ks: seq<string>, x: string)
    requires DistinctSeq(ks)
    ensures multiset(ks)[x] <= 1
  {
    if ks != [] {
      assert ks == [ks[0]] + ks[1..];
      CountInDistinct(ks[1..], x);
      if ks[0] == x {
        assert x !in ks[1..];
      }
    }
  }

  lemma RepeatCounts(ks: seq<string>, i: nat, j: nat)
    requires i < j < |ks| && ks[i] == ks[j]
    ensures multiset(ks)[ks[i]] >= 2
  {
    assert ks == ks[..j] + ks[j..];
    assert ks[..j][i] == ks[i];
    assert ks[j..][0] == ks[i];
  }

  /** A permutation of distinct keys has distinct keys. */
  lemma PermutationDistinct(a: seq<string>, b: seq<string>)
    requires multiset(a) == multiset(b) && DistinctSeq(a)
    ensures DistinctSeq(b)
  {
    forall i, j | 0 <= i < j < |b| ensures b[i] != b[j] {
      if b[i] == b[j] {
        RepeatCounts(b, i, j);
        CountInDistinct(a, b[i]);
      }
    }
  }

  lemma KeyListDistinct(ps: seq<Prop>)
    requires DistinctKeys(ps)
    ensures DistinctSeq(KeyList(ps))
  {
  }

  lemma RebuildKeys(keys: seq<string>, obj: seq<Prop>)
    requires DistinctSeq(keys)
    ensures KeyList(Rebuild(keys, obj)) == keys && DistinctKeys(Rebuild(keys, obj))
  {
    RebuildEntries(keys, obj);
  }

  lemma RebuildGet(keys: seq<string>, obj: seq<Prop>, k: string)
    requires DistinctSeq(keys) && multiset(keys) == multiset(KeyList(obj))
    ensures Get(Rebuild(keys, obj), k) == Get(obj, k)
  {
    var r := Rebuild(keys, obj);
    RebuildEntries(keys, obj);
    var i := KeyIndex(r, k);
    if i >= 0 {
      assert r[i] == Prop(keys[i], Get(obj, keys[i]));
    } else {
      assert k !in keys;
      assert k !in multiset(KeyList(obj));
    }
  }

  /**
   * `sort` keeps exactly the same key-to-value pairs: the keys of the new
   * object are the sorted keys, each once, and every key reads the value
   * it had before (a missing key still reads `undefined`).
   */
  lemma SortKeepsEntries(obj: seq<Prop>, order: Order, collate: (string, string) -> int)
    requires DistinctKeys(obj)
    ensures var keys := SortKeys(KeyList(obj), order, collate);
      var r := Rebuild(keys, obj);
      KeyList(r) == keys && DistinctKeys(r) && multiset(keys) == multiset(KeyList(obj)) &&
      forall k :: Get(r, k) == Get(obj, k)
  {
    var keys := SortKeys(KeyList(obj), order, collate);
    KeyListDistinct(obj);
    PermutationDistinct(KeyList(obj), keys);
    RebuildKeys(keys, obj);
    forall k ensures Get(Rebuild(keys, obj), k) == Get(obj, k) {
      RebuildGet(keys, obj, k);
    }
  }

  // ---------------------------------------------------------------------
  // The wrapper
  // ---------------------------------------------------------------------

  /** `withGlobals`: the wrapped value lives in `_`, here `current`. */
  class WithGlobals {
    /** The field `_`. */
    var current: JsVal

    /** `new withGlobals(value)`, also what `_(value)` returns. */
    constructor(value: JsVal)
      ensures current == value
    {
      current := value;
    }

    /** `value()`: the held value itself, not a copy. */
    function Value(): (v: JsVal)
      reads this
      ensures v == current
    {
      current
    }

    /** `isEmpty()`: only `""`, `[]`, `{}` and a function without source text. */
    predicate IsEmpty()
      reads this
      ensures IsEmpty() <==>
        (current == Str("") || (current.Arr? && current.elems == [])
         || (current.Obj? && current.props == []) || (current.Func? && current.source == ""))
    {
      EmptyValues(current);
      IsEmptyValue(current)
    }

    /**
     * `isNumber()`: a string is tested as it is; every integer printed in
     * plain decimal passes.
     */
    predicate IsNumber()
      reads this
      ensures current.Str? ==> (IsNumber() <==> NumberText(current.s))
      ensures current.Num? && -DecimalLimit < current.n < DecimalLimit ==> IsNumber()
    {
      if current.Num? && -DecimalLimit < current.n < DecimalLimit then
        IntegersAreNumbers(current.n);
        IsNumberValue(current)
      else IsNumberValue(current)
    }

    /** `isObject()`: exactly the plain objects. */
    predicate IsObject()
      reads this
      ensures IsObject() <==> current.Obj?
    {
      IsObjectValue(current)
    }

    /** `equals(v)` */
    method Equals(v: JsVal) returns (r: bool)
      ensures r == Equal(current, v)
    {
      var a := current;
      if a.Arr? && v.Arr? {
        r := DeepEqual(a, v);
        return;
      }
      if IsObjectValue(a) && IsObjectValue(v) {
        r := DeepEqual(a, v);
        return;
      }
      r := StrictEq(a, v);
    }

    /** `toLowerCase()`: the string form of the value, lower-cased. */
    method ToLowerCase() returns (self: WithGlobals)
      modifies this
      ensures self == this
      ensures current == Str(Lower(StringOf(old(current))))
    {
      if current.Str? {
        current := Str(Lower(current.s));
      } else {
        current := Str(Lower(StringOf(current)));
      }
      return this;
    }

    /** `ucfirst()`: a string gets its first character upper-cased; anything else is kept. */
    method Ucfirst() returns (self: WithGlobals)
      modifies this
      ensures self == this
      ensures old(current).Str? ==> current == Str(UcFirst(old(current).s))
      ensures !old(current).Str? ==> current == old(current)
    {
      if current.Str? {
        current := Str(UcFirst(current.s));
      }
      return this;
    }

    /** `formatString(v, ...vv)`: a non-string is first reset to `""`. */
    method FormatString(v: JsVal, vv: seq<JsVal>) returns (self: WithGlobals)
      modifies this
      ensures self == this
      ensures current == Str(Format(if old(current).Str? then old(current).s else "", [v] + vv))
    {
      if !current.Str? {
        current := Str("");
      }
      var values := [v] + vv;
      current := Str(Format(current.s, values));
      return this;
    }

    /** `camelCase()`: a string is camel-cased; anything else is kept. */
    method CamelCase() returns (self: WithGlobals)
      modifies this
      ensures self == this
      ensures old(current).Str? ==> current == Str(CamelCased(old(current).s))
      ensures !old(current).Str? ==> current == old(current)
    {
      if current.Str? {
        current := Str(CamelCased(current.s));
      }
      return this;
    }

    /**
     * `sort(order)`: a plain object is replaced by a new object, `newRef`,
     * holding its entries in the order of the sorted keys; anything else
     * is kept.
     */
    method Sort(order: Order, collate: (string, string) -> int, newRef: nat) returns (self: WithGlobals)
      modifies this
      ensures self == this
      ensures !IsObjectValue(old(current)) ==> current == old(current)
      ensures IsObjectValue(old(current)) ==>
        current == Obj(Rebuild(SortKeys(KeyList(old(current).props), order, collate), old(current).props), newRef)
    {
      if !IsObjectValue(current) {
        return this;
      }
      var obj := current.props;
      var sortedKeys := SortKeys(KeyList(obj), order, collate);
      var sortedObject: seq<Prop> := [];
      var i := 0;
      while i < |sortedKeys|
        invariant 0 <= i <= |sortedKeys|
        invariant sortedObject == Rebuild(sortedKeys[..i], obj)
      {
        var key := sortedKeys[i];
        RebuildStep(sortedKeys, obj, i);
        sortedObject := Put(sortedObject, key, Get(obj, key));
        i := i + 1;
      }
      assert sortedKeys[..i] == sortedKeys;
      current := Obj(sortedObject, newRef);
      return this;
    }
  }

  /** Lower-casing the held value a second time changes nothing. */
  lemma ToLowerCaseIdempotent(v: JsVal)
    ensures var once := Str(Lower(StringOf(v)));
      Str(Lower(StringOf(once))) == once
  {
    LowerIdempotent(StringOf(v));
  }
}
