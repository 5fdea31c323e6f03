/**
 * Cell keys. The board keys its cells by the string "row-col" (1-based) and
 * reads them back with `split("-").map(Number)`. The rest of the model uses the
 * pair Key(row, col); this module proves that the string form carries exactly
 * the same information, so the two are interchangeable.
 */
module Keys {
  import opened Levels

  /** A 1-based (row, column) grid coordinate. */
  datatype Key = Key(row: nat, col: nat)

  /** The cell after `k` in direction `d`: one column right when across, one row down otherwise. */
  function NextKey(k: Key, d: Direction): (r: Key)
    ensures r.row + r.col == k.row + k.col + 1
    ensures r.row == k.row <==> d == Across
    ensures r.col == k.col <==> d != Across
  {
    if d == Across then Key(k.row, k.col + 1) else Key(k.row + 1, k.col)
  }

  /** The cell reached from `k` by `n` steps of NextKey in direction `d`. */
  function Walk(k: Key, d: Direction, n: nat): Key
  {
    if n == 0 then k else NextKey(Walk(k, d, n - 1), d)
  }

  lemma {:induction false} WalkPosition(k: Key, d: Direction, n: nat)
    ensures Walk(k, d, n) == if d == Across then Key(k.row, k.col + n) else Key(k.row + n, k.col)
  {
    if n > 0 {
      WalkPosition(k, d, n - 1);
    }
  }

  // ---------------------------------------------------------------------------
  // Decimal text of a number, as a template literal `${n}` writes it

  function DigitChar(d: nat): char
    requires d < 10
  {
    ('0' as int + d) as char
  }

  function NatToString(n: nat): string
    decreases n
  {
    if n < 10 then [DigitChar(n)] else NatToString(n / 10) + [DigitChar(n % 10)]
  }

  predicate IsDigit(c: char)
  {
    '0' <= c <= '9'
  }

  predicate AllDigits(s: string)
  {
    forall i :: 0 <= i < |s| ==> IsDigit(s[i])
  }

  /** The value of a string of decimal digits. */
  function DigitsValue(s: string): nat
    requires AllDigits(s)
  {
    if s == [] then 0 else DigitsValue(s[..|s| - 1]) * 10 + (s[|s| - 1] as int - '0' as int)
  }

  lemma {:induction false} NatToStringValue(n: nat)
    ensures |NatToString(n)| > 0 && AllDigits(NatToString(n))
    ensures DigitsValue(NatToString(n)) == n
    decreases n
  {
    var s := NatToString(n);
    if n >= 10 {
      NatToStringValue(n / 10);
      assert s[..|s| - 1] == NatToString(n / 10);
    }
  }

  // ---------------------------------------------------------------------------
  // JavaScript values produced by `Number(...)` and by destructuring a short array

  /** A number from `Number(s)` (never negative here), NaN, or `undefined` for a missing element. */
  datatype JsValue = Num(n: nat) | NaN | Undefined

  /**
   * `Number(s)` on the strings a key can split into: the empty string is 0, a
   * string of decimal digits is its value, anything else is NaN.
   */
  function ToNumber(s: string): JsValue
  {
    if s == [] then Num(0) else if AllDigits(s) then Num(DigitsValue(s)) else NaN
  }

  /** `${v}` for a JavaScript value. */
  function Show(v: JsValue): string
  {
    match v
    case Num(n) => NatToString(n)
    case NaN => "NaN"
    case Undefined => "undefined"
  }

  /** `v + 1`: undefined and NaN both give NaN. */
  function Plus1(v: JsValue): JsValue
  {
    match v
    case Num(n) => Num(n + 1)
    case _ => NaN
  }

  /** `s.split(sep)`: the pieces between separators; an empty string gives [""]. */
  function Split(s: string, sep: char): (parts: seq<string>)
    ensures |parts| > 0
  {
    if s == [] then [[]]
    else
      var rest := Split(s[1..], sep);
      if s[0] == sep then [[]] + rest else [[s[0]] + rest[0]] + rest[1..]
  }

  lemma {:induction false} SplitWithoutSeparator(a: string, sep: char)
    requires sep !in a
    ensures Split(a, sep) == [a]
  {
    if a != [] {
      SplitWithoutSeparator(a[1..], sep);
      assert [a[0]] + a[1..] == a;
    }
  }

  lemma {:induction false} SplitJoin(a: string, b: string, sep: char)
    requires sep !in a && sep !in b
    ensures Split(a + [sep] + b, sep) == [a, b]
  {
    var s := a + [sep] + b;
    if a == [] {
      assert s[1..] == b;
      SplitWithoutSeparator(b, sep);
    } else {
      assert s[1..] == a[1..] + [sep] + b;
      SplitJoin(a[1..], b, sep);
      assert [a[0]] + a[1..] == a;
    }
  }

  // ---------------------------------------------------------------------------
  // The key codec

  /** `${y}-${x}` */
  function FormatKey(k: Key): string
  {
    NatToString(k.row) + "-" + NatToString(k.col)
  }

  /** `key.split("-").map(Number)` */
  function ParseKey(s: string): (vs: seq<JsValue>)
    ensures |vs| == |Split(s, '-')|
  {
    var parts := Split(s, '-');
    seq(|parts|, i requires 0 <= i < |parts| => ToNumber(parts[i]))
  }

  /** Element `i` of an array destructuring pattern: `undefined` past the end. */
  function Element(vs: seq<JsValue>, i: nat): JsValue
  {
    if i < |vs| then vs[i] else Undefined
  }

  lemma NatToStringHasNoDash(n: nat)
    ensures '-' !in NatToString(n)
  {
    NatToStringValue(n);
  }

  /** Parsing a formatted key gives back its row and column. */
  lemma ParseFormatRoundTrip(k: Key)
    ensures ParseKey(FormatKey(k)) == [Num(k.row), Num(k.col)]
  {
    var a, b := NatToString(k.row), NatToString(k.col);
    NatToStringHasNoDash(k.row);
    NatToStringHasNoDash(k.col);
    SplitJoin(a, b, '-');
    assert FormatKey(k) == a + ['-'] + b;
    NatToStringValue(k.row);
    NatToStringValue(k.col);
  }

  /** Two keys format to the same string exactly when they are the same cell. */
  lemma FormatKeyInjective(k1: Key, k2: Key)
    ensures FormatKey(k1) == FormatKey(k2) <==> k1 == k2
  {
    if FormatKey(k1) == FormatKey(k2) {
      ParseFormatRoundTrip(k1);
      ParseFormatRoundTrip(k2);
    }
  }

  /**
   * `getNextCellKey` on the string form: parse the key, add one to the column
   * (across) or to the row (any other direction), and format it again.
   */
  function GetNextCellKey(key: string, d: Direction): string
  {
    var vs := ParseKey(key);
    var y, x := Element(vs, 0), Element(vs, 1);
    if d == Across then Show(y) + "-" + Show(Plus1(x)) else Show(Plus1(y)) + "-" + Show(x)
  }

  /** On a formatted key, the string-level next key is the formatted NextKey. */
  lemma GetNextCellKeyFormat(k: Key, d: Direction)
    ensures GetNextCellKey(FormatKey(k), d) == FormatKey(NextKey(k, d))
  {
    ParseFormatRoundTrip(k);
  }
}
