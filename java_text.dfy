/**
 * The pieces of java.lang the seller's handlers lean on for message payloads:
 * `String.split` with a one-character separator, `String.join`,
 * `Integer.toString` and `Integer.valueOf`, and the 32-bit `int` range.
 */
module JavaText {
  import opened Wrappers

  const MinInt: int := -0x8000_0000
  const MaxInt: int := 0x7fff_ffff

  /** Java's `int`. */
  type Int32 = x: int | MinInt <= x <= MaxInt

  // ---------------------------------------------------------------------
  // Splitting and joining
  // ---------------------------------------------------------------------

  /** The pieces of `s` between occurrences of `sep`, empty pieces included. */
  function Segments(s: string, sep: char): (r: seq<string>)
    ensures |r| >= 1
    ensures forall i :: 0 <= i < |r| ==> sep !in r[i]
    decreases |s|
  {
    if s == [] then [[]]
    else
      var rest := Segments(s[1..], sep);
      if s[0] == sep then [[]] + rest
      else [[s[0]] + rest[0]] + rest[1..]
  }

  /** `xs` without its run of trailing empty strings. */
  function DropTrailingEmpty(xs: seq<string>): (r: seq<string>)
    ensures |r| <= |xs| && r == xs[..|r|]
    ensures r == [] || r[|r| - 1] != []
    ensures forall i :: |r| <= i < |xs| ==> xs[i] == []
  {
    if xs == [] then []
    else if xs[|xs| - 1] == [] then DropTrailingEmpty(xs[..|xs| - 1])
    else xs
  }

  /**
   * `s.split(sep)` for a separator that is not a regular-expression
   * metacharacter (`;`, `,` and `:` here): a string without the separator
   * splits to itself alone, otherwise to its pieces with the trailing empty
   * ones removed (so `";"` splits to no piece at all).
   */
  function Split(s: string, sep: char): (r: seq<string>)
    ensures forall i :: 0 <= i < |r| ==> sep !in r[i]
    ensures sep !in s ==> r == [s]
  {
    if sep !in s then [s] else DropTrailingEmpty(Segments(s, sep))
  }

  /**
   * `String.join(sep, parts)`. When no part holds the separator, the result
   * holds exactly one separator between each two consecutive parts.
   */
  function Join(parts: seq<string>, sep: char): (r: string)
    ensures |parts| >= 1 && (forall i :: 0 <= i < |parts| ==> sep !in parts[i]) ==>
      multiset(r)[sep] == |parts| - 1
  {
    if |parts| == 0 then []
    else if |parts| == 1 then parts[0]
    else
      assert forall i :: 0 <= i < |parts| - 1 ==> parts[1..][i] == parts[i + 1];
      parts[0] + [sep] + Join(parts[1..], sep)
  }

  lemma {:induction false} SegmentsAfterPiece(a: string, b: string, sep: char)
    requires sep !in a
    ensures Segments(a + [sep] + b, sep) == [a] + Segments(b, sep)
    decreases |a|
  {
    if a == [] {
      assert (a + [sep] + b)[1..] == b;
    } else {
      SegmentsAfterPiece(a[1..], b, sep);
      assert (a + [sep] + b)[1..] == a[1..] + [sep] + b;
      assert [a[0]] + a[1..] == a;
    }
  }

  lemma {:induction false} SegmentsOfPiece(a: string, sep: char)
    requires sep !in a
    ensures Segments(a, sep) == [a]
    decreases |a|
  {
    if a != [] {
      SegmentsOfPiece(a[1..], sep);
      assert [a[0]] + a[1..] == a;
    }
  }

  /** Splitting the pieces of a join on the same separator gives the pieces back. */
  lemma {:induction false} SegmentsOfJoin(parts: seq<string>, sep: char)
    requires |parts| >= 1
    requires forall i :: 0 <= i < |parts| ==> sep !in parts[i]
    ensures Segments(Join(parts, sep), sep) == parts
    decreases |parts|
  {
    if |parts| == 1 {
      SegmentsOfPiece(parts[0], sep);
    } else {
      SegmentsOfJoin(parts[1..], sep);
      SegmentsAfterPiece(parts[0], Join(parts[1..], sep), sep);
      assert [parts[0]] + parts[1..] == parts;
    }
  }

  /**
   * The split/join round trip: a list of separator-free strings whose last one
   * is not empty is what `split` gives back from its `join`.
   */
  lemma SplitJoin(parts: seq<string>, sep: char)
    requires |parts| >= 1 && parts[|parts| - 1] != []
    requires forall i :: 0 <= i < |parts| ==> sep !in parts[i]
    ensures Split(Join(parts, sep), sep) == parts
  {
    if |parts| > 1 {
      var s := Join(parts, sep);
      assert s[|parts[0]|] == sep;
      SegmentsOfJoin(parts, sep);
    }
  }

  /** `a + sep + b` splits back to `a` and `b` when neither holds the separator and `b` is not empty. */
  lemma SplitPair(a: string, b: string, sep: char)
    requires sep !in a && sep !in b && b != []
    ensures Split(a + [sep] + b, sep) == [a, b]
  {
    assert Join([a, b], sep) == a + [sep] + b;
    SplitJoin([a, b], sep);
  }

  // ---------------------------------------------------------------------
  // Decimal integers
  // ---------------------------------------------------------------------

  predicate IsDigit(c: char)
  {
    '0' <= c <= '9'
  }

  predicate AllDigits(s: string)
  {
    forall i :: 0 <= i < |s| ==> IsDigit(s[i])
  }

  function DigitChar(d: nat): (c: char)
    requires d < 10
    ensures IsDigit(c) && c as int - '0' as int == d
  {
    ('0' as int + d) as char
  }

  /** The value of a string of decimal digits, read most significant first. */
  function DigitsValue(s: string): nat
    requires AllDigits(s)
  {
    if s == [] then 0
    else DigitsValue(s[..|s| - 1]) * 10 + (s[|s| - 1] as int - '0' as int)
  }

  /** The decimal digits of `n`, without leading zeros. */
  function NatToString(n: nat): (s: string)
    ensures s != [] && AllDigits(s)
    decreases n
  {
    if n < 10 then [DigitChar(n)] else NatToString(n / 10) + [DigitChar(n % 10)]
  }

  /** `Integer.toString(n)`: a minus sign for negative values, then the digits. */
  function IntToString(n: int): (s: string)
    ensures s != [] && ';' !in s && ',' !in s && ':' !in s
  {
    if n < 0 then "-" + NatToString(-n) else NatToString(n)
  }

  /**
   * `Integer.valueOf(s)`: an optional `+` or `-`, then at least one decimal
   * digit, and a value inside the `int` range; anything else is the
   * NumberFormatException, here `None`.
   */
  function ParseInt(s: string): (r: Option<int>)
    ensures r.Some? ==> MinInt <= r.value <= MaxInt
  {
    if s == [] then None
    else
      var digits := if s[0] == '-' || s[0] == '+' then s[1..] else s;
      if digits == [] || !AllDigits(digits) then None
      else
        var v: int := if s[0] == '-' then 0 - DigitsValue(digits) else DigitsValue(digits);
        if MinInt <= v <= MaxInt then Some(v) else None
  }

  lemma {:induction false} DigitsOfNat(n: nat)
    ensures DigitsValue(NatToString(n)) == n
    decreases n
  {
    if n >= 10 {
      DigitsOfNat(n / 10);
      var s := NatToString(n);
      assert s[..|s| - 1] == NatToString(n / 10);
    }
  }

  /** Formatting an `int` and parsing it back gives the same `int`. */
  lemma ParseFormat(n: Int32)
    ensures ParseInt(IntToString(n)) == Some(n)
  {
    if n < 0 {
      var m: nat := -(n as int);
      DigitsOfNat(m);
      assert IntToString(n)[1..] == NatToString(m);
    } else {
      DigitsOfNat(n);
    }
  }
}
