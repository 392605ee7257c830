/**
 * The JavaScript values the pipeline handles, as Dafny data: CSV cells that
 * may be `undefined`, numbers that may be NaN, dates that may be invalid, and
 * the handful of string operations the code applies to cells.
 */
module Js {

  datatype Option<+T> = None | Some(value: T)

  /** A parsed CSV row: the tokenizer produces strings only. */
  type Row = seq<string>

  /** `r[i]` on a row: `undefined` (None) outside the row, including `r[-1]`. */
  type Cell = Option<string>

  function CellAt(r: Row, i: int): (c: Cell)
    ensures c.Some? <==> 0 <= i < |r|
    ensures c.Some? ==> c.value == r[i]
  {
    if 0 <= i < |r| then Some(r[i]) else None
  }

  /** JavaScript truthiness of a cell: `undefined` and `''` are falsy. */
  predicate Truthy(c: Cell) {
    c.Some? && c.value != ""
  }

  /** `String(c)`: `undefined` prints as the word "undefined". */
  function Text(c: Cell): string {
    if c.Some? then c.value else "undefined"
  }

  /** `c || d` with a string default. */
  function OrElse(c: Cell, d: string): (s: string)
    ensures Truthy(c) ==> s == c.value
    ensures !Truthy(c) ==> s == d
  {
    if Truthy(c) then c.value else d
  }

  /** `c ?? d`: only `undefined` is replaced, the empty string is kept. */
  function Coalesce(c: Cell, d: string): (s: string)
    ensures c.Some? ==> s == c.value
    ensures c.None? ==> s == d
  {
    if c.Some? then c.value else d
  }

  // ---------------------------------------------------------------------
  // Numbers

  /** A JavaScript number, apart from the infinities and signed zero. */
  datatype Num = NaN | Fin(val: real)

  /** `Number(x) || 0`: NaN (and zero) become 0. */
  function OrZero(n: Num): real {
    if n.Fin? then n.val else 0.0
  }

  function Add(a: Num, b: Num): (r: Num)
    ensures r.Fin? <==> a.Fin? && b.Fin?
    ensures r.Fin? ==> r.val == a.val + b.val
  {
    if a.Fin? && b.Fin? then Fin(a.val + b.val) else NaN
  }

  /** `Math.abs`. */
  function Abs(a: Num): (r: Num)
    ensures r.Fin? <==> a.Fin?
    ensures r.Fin? ==> r.val >= 0.0 && (r.val == a.val || r.val == -a.val)
  {
    if a.NaN? then NaN else if a.val < 0.0 then Fin(-a.val) else a
  }

  /** Unary minus. */
  function Neg(a: Num): (r: Num)
    ensures r.Fin? <==> a.Fin?
    ensures r.Fin? ==> r.val + a.val == 0.0
  {
    if a.NaN? then NaN else Fin(-a.val)
  }

  // ---------------------------------------------------------------------
  // Dates, as milliseconds since the epoch

  /** A `Date` object: `Invalid` is a date whose `getTime()` is NaN. */
  datatype Instant = Invalid | At(ms: int)

  /** `a >= b` on two dates: false as soon as either is invalid. */
  predicate AtOrAfter(a: Instant, b: Instant) {
    a.At? && b.At? && a.ms >= b.ms
  }

  /** `a - b` on two dates. */
  function Minus(a: Instant, b: Instant): (r: Num)
    ensures r.Fin? <==> a.At? && b.At?
    ensures r.Fin? ==> r.val == (a.ms - b.ms) as real
  {
    if a.At? && b.At? then Fin((a.ms - b.ms) as real) else NaN
  }

  // ---------------------------------------------------------------------
  // Strings

  predicate StartsWith(s: string, prefix: string) {
    |prefix| <= |s| && s[..|prefix|] == prefix
  }

  /** `xs.indexOf(x)`: the first position of x, or -1. */
  function IndexOf(xs: seq<string>, x: string): (k: int)
    ensures -1 <= k < |xs|
    ensures k == -1 <==> x !in xs
    ensures 0 <= k ==> xs[k] == x && x !in xs[..k]
  {
    if |xs| == 0 then -1
    else if xs[0] == x then 0
    else
      var k := IndexOf(xs[1..], x);
      assert xs[1..] == xs[1..][..|xs| - 1];
      if k == -1 then -1
      else
        assert xs[..k + 1] == [xs[0]] + xs[1..][..k];
        k + 1
  }

  /** `s.replaceAll(',', '')`. */
  function RemoveCommas(s: string): (r: string)
    ensures ',' !in r
    ensures |r| <= |s|
    ensures ',' !in s ==> r == s
    ensures forall c :: c != ',' ==> multiset(r)[c] == multiset(s)[c]
  {
    if |s| == 0 then ""
    else
      var rest := RemoveCommas(s[1..]);
      assert s == [s[0]] + s[1..];
      if s[0] == ',' then rest else [s[0]] + rest
  }

  /** Removing commas works character by character: it distributes over concatenation. */
  lemma {:induction false} RemoveCommasAppend(a: string, b: string)
    ensures RemoveCommas(a + b) == RemoveCommas(a) + RemoveCommas(b)
  {
    if a != "" {
      assert (a + b)[0] == a[0];
      assert (a + b)[1..] == a[1..] + b;
      RemoveCommasAppend(a[1..], b);
    } else {
      assert a + b == b;
    }
  }

  /** The characters `String.prototype.trim` removes: WhiteSpace and LineTerminator. */
  predicate IsSpace(c: char) {
    c == '\t' || c == '\n' || c == '\U{000B}' || c == '\U{000C}' || c == '\r'
    || c == ' ' || c == '\U{00A0}' || c == '\U{1680}'
    || ('\U{2000}' <= c <= '\U{200A}') || c == '\U{2028}' || c == '\U{2029}'
    || c == '\U{202F}' || c == '\U{205F}' || c == '\U{3000}' || c == '\U{FEFF}'
  }

  function TrimStart(s: string): (r: string)
    ensures |r| <= |s| && r == s[|s| - |r|..]
    ensures r == "" || !IsSpace(r[0])
    ensures forall i :: 0 <= i < |s| - |r| ==> IsSpace(s[i])
  {
    if |s| > 0 && IsSpace(s[0]) then TrimStart(s[1..]) else s
  }

  function TrimEnd(s: string): (r: string)
    ensures |r| <= |s| && r == s[..|r|]
    ensures r == "" || !IsSpace(r[|r| - 1])
    ensures forall i :: |r| <= i < |s| ==> IsSpace(s[i])
  {
    if |s| > 0 && IsSpace(s[|s| - 1]) then TrimEnd(s[..|s| - 1]) else s
  }

  /** `r` sits at `i` in `s` with only white space before and after it. */
  predicate SpaceAround(s: string, i: int, r: string) {
    0 <= i <= |s| - |r| && r == s[i..i + |r|]
    && (forall j :: 0 <= j < i ==> IsSpace(s[j]))
    && (forall j :: i + |r| <= j < |s| ==> IsSpace(s[j]))
  }

  /** `s.trim()`. */
  function Trim(s: string): (r: string)
    ensures |r| <= |s|
    ensures r == "" || (!IsSpace(r[0]) && !IsSpace(r[|r| - 1]))
    ensures exists i :: SpaceAround(s, i, r)
  {
    TrimAround(s);
    TrimEnd(TrimStart(s))
  }

  /** Cutting a space-only head and then a space-only tail leaves a slice with only space around it. */
  lemma {:induction false} CutAround(s: string, t: string, r: string)
    requires |t| <= |s| && t == s[|s| - |t|..] && forall i :: 0 <= i < |s| - |t| ==> IsSpace(s[i])
    requires |r| <= |t| && r == t[..|r|] && forall i :: |r| <= i < |t| ==> IsSpace(t[i])
    ensures SpaceAround(s, |s| - |t|, r)
  {
    var i := |s| - |t|;
    assert r == s[i..i + |r|];
    forall j | i + |r| <= j < |s| ensures IsSpace(s[j]) {
      assert s[j] == t[j - i];
    }
  }

  /** Trimming cuts white space from the ends, and only from the ends. */
  lemma TrimAround(s: string)
    ensures SpaceAround(s, |s| - |TrimStart(s)|, TrimEnd(TrimStart(s)))
  {
    CutAround(s, TrimStart(s), TrimEnd(TrimStart(s)));
  }

  /** Trimming twice is trimming once. */
  lemma TrimIdempotent(s: string)
    ensures Trim(Trim(s)) == Trim(s)
  {
    var r := Trim(s);
    if r != "" {
      assert TrimStart(r) == r;
      assert TrimEnd(r) == r;
    }
  }

  /** The position of the first comma. */
  function FirstComma(s: string): (k: nat)
    requires ',' in s
    ensures k < |s| && s[k] == ',' && ',' !in s[..k]
  {
    if s[0] == ',' then 0
    else
      assert ',' in s[1..] by {
        var i :| 0 <= i < |s| && s[i] == ',';
        assert s[1..][i - 1] == ',';
      }
      var k := FirstComma(s[1..]);
      assert s[..k + 1] == [s[0]] + s[1..][..k];
      k + 1
  }

  /** `s.split(',')`: the comma-separated fields, at least one. */
  function Fields(s: string): (r: seq<string>)
    ensures |r| >= 1
    ensures forall i :: 0 <= i < |r| ==> ',' !in r[i]
    decreases |s|
  {
    if ',' !in s then [s]
    else
      var k := FirstComma(s);
      [s[..k]] + Fields(s[k + 1..])
  }

  /** `fs.join(',')`. */
  function Join(fs: seq<string>): string
    requires |fs| >= 1
  {
    if |fs| == 1 then fs[0] else fs[0] + "," + Join(fs[1..])
  }

  /** Joining a field in front of others puts a comma between. */
  lemma JoinCons(a: string, fs: seq<string>)
    requires |fs| >= 1
    ensures Join([a] + fs) == a + "," + Join(fs)
  {
    assert ([a] + fs)[1..] == fs;
  }

  /** Splitting on commas and joining back gives the original string. */
  lemma {:induction false} JoinFields(s: string)
    ensures Join(Fields(s)) == s
    decreases |s|
  {
    if ',' in s {
      var k := FirstComma(s);
      var a, b := s[..k], s[k + 1..];
      assert s == a + "," + b;
      JoinFields(b);
      JoinCons(a, Fields(b));
      assert Fields(s) == [a] + Fields(b);
    }
  }

  /** The first comma of `a + "," + b` is the one after `a` when `a` has none. */
  lemma {:induction false} FirstCommaAfter(a: string, b: string)
    requires ',' !in a
    ensures ',' in a + "," + b && FirstComma(a + "," + b) == |a|
  {
    var s := a + "," + b;
    assert s[|a|] == ',';
    if a != [] {
      assert s[0] == a[0];
      assert s[1..] == a[1..] + "," + b;
      FirstCommaAfter(a[1..], b);
    }
  }

  /** Splitting `a + "," + b` for a comma-free `a` yields `a` followed by the fields of `b`. */
  lemma FieldsCons(a: string, b: string)
    requires ',' !in a
    ensures Fields(a + "," + b) == [a] + Fields(b)
  {
    var s := a + "," + b;
    FirstCommaAfter(a, b);
    assert s[..|a|] == a;
    assert s[|a| + 1..] == b;
  }

  /** Joining comma-free fields and splitting again gives the same fields. */
  lemma {:induction false} FieldsOfJoin(fs: seq<string>)
    requires |fs| >= 1
    requires forall i :: 0 <= i < |fs| ==> ',' !in fs[i]
    ensures Fields(Join(fs)) == fs
  {
    if |fs| > 1 {
      var s := Join(fs);
      assert s == fs[0] + "," + Join(fs[1..]);
      FirstCommaAfter(fs[0], Join(fs[1..]));
      assert s[..|fs[0]|] == fs[0];
      assert s[|fs[0]| + 1..] == Join(fs[1..]);
      FieldsOfJoin(fs[1..]);
    }
  }

  // ---------------------------------------------------------------------
  // Upper-casing, as far as the side column needs it

  /**
   * `String(s).toUpperCase() === 'SELL'`. Under the Unicode case mapping the
   * characters whose upper case is `S` are `s`, `S` and the long s U+017F, those
   * for `E` are `e` and `E`, for `L` are `l` and `L`; no multi-character
   * mapping produces a piece of "SELL", so exactly these four-character
   * strings upper-case to it.
   */
  predicate UppercasesToSell(s: string) {
    |s| == 4
    && (s[0] == 's' || s[0] == 'S' || s[0] == '\U{017F}')
    && (s[1] == 'e' || s[1] == 'E')
    && (s[2] == 'l' || s[2] == 'L')
    && (s[3] == 'l' || s[3] == 'L')
  }
}
