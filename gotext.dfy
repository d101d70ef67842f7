/**
 * The pieces of Go's `strings` and `strconv` packages that the request path
 * parser and the cache-key builders rely on: `strings.Split`, `strings.Join`,
 * `strings.Replace(s, old, new, -1)` for one-character patterns, and
 * `strconv.Atoi` / `strconv.Itoa` on 64-bit `int`.
 */
module GoText {
  import opened Wrappers

  const MinInt64: int := -0x8000_0000_0000_0000
  const MaxInt64: int := 0x7FFF_FFFF_FFFF_FFFF

  /** Go's `int` on the 64-bit platforms the service is built for. */
  type Int64 = x: int | MinInt64 <= x <= MaxInt64

  // ---------------------------------------------------------------------------
  // strings.Split and strings.Join with a one-character separator
  // ---------------------------------------------------------------------------

  /**
   * `strings.Split(s, string(sep))`: the pieces between separators, so that an
   * empty string gives one empty piece and a leading separator an empty first
   * piece.
   */
  function Split(s: string, sep: char): (parts: seq<string>)
    ensures |parts| >= 1
    ensures forall i :: 0 <= i < |parts| ==> sep !in parts[i]
    decreases |s|
  {
    if |s| == 0 then [""]
    else
      var rest := Split(s[1..], sep);
      if s[0] == sep then [""] + rest
      else [[s[0]] + rest[0]] + rest[1..]
  }

  /** `strings.Join(parts, string(sep))`. */
  function Join(parts: seq<string>, sep: char): (s: string)
    ensures |parts| >= 1 ==> parts[0] <= s
    decreases |parts|
  {
    if |parts| == 0 then ""
    else if |parts| == 1 then parts[0]
    else parts[0] + [sep] + Join(parts[1..], sep)
  }

  /** Joining the pieces of a split gives back the original string. */
  lemma {:induction false} JoinSplit(s: string, sep: char)
    ensures Join(Split(s, sep), sep) == s
    decreases |s|
  {
    if |s| > 0 {
      var rest := Split(s[1..], sep);
      JoinSplit(s[1..], sep);
      if s[0] == sep {
        assert Split(s, sep) == [""] + rest;
        assert ([""] + rest)[1..] == rest;
        assert s == [sep] + s[1..];
      } else if |rest| == 1 {
        assert Split(s, sep) == [[s[0]] + rest[0]];
        assert s == [s[0]] + s[1..];
      } else {
        var parts := Split(s, sep);
        assert parts == [[s[0]] + rest[0]] + rest[1..];
        assert parts[1..] == rest[1..];
        assert Join(rest, sep) == rest[0] + [sep] + Join(rest[1..], sep);
        assert s == [s[0]] + s[1..];
      }
    }
  }

  /** A separator-free prefix glues onto the first piece of what follows it. */
  lemma {:induction false} SplitPrefix(a: string, rest: string, sep: char)
    requires sep !in a
    ensures Split(a + rest, sep) == [a + Split(rest, sep)[0]] + Split(rest, sep)[1..]
    decreases |a|
  {
    if |a| > 0 {
      SplitPrefix(a[1..], rest, sep);
      var parts := Split(rest, sep);
      var r := Split(a[1..] + rest, sep);
      assert (a + rest)[1..] == a[1..] + rest;
      assert r[0] == a[1..] + parts[0] && r[1..] == parts[1..];
      assert Split(a + rest, sep) == [[a[0]] + r[0]] + r[1..];
      assert [a[0]] + (a[1..] + parts[0]) == a + parts[0];
    } else {
      var parts := Split(rest, sep);
      assert a + rest == rest && a + parts[0] == parts[0];
      assert parts == [parts[0]] + parts[1..];
    }
  }

  /** Splitting a join gives back the pieces, when no piece holds the separator. */
  lemma {:induction false} SplitJoin(parts: seq<string>, sep: char)
    requires |parts| >= 1
    requires forall i :: 0 <= i < |parts| ==> sep !in parts[i]
    ensures Split(Join(parts, sep), sep) == parts
    decreases |parts|
  {
    if |parts| == 1 {
      SplitPrefix(parts[0], "", sep);
      assert parts[0] + "" == parts[0];
    } else {
      var tail := Join(parts[1..], sep);
      SplitJoin(parts[1..], sep);
      SplitPrefix(parts[0], [sep] + tail, sep);
      assert parts[0] + [sep] + tail == parts[0] + ([sep] + tail);
      assert ([sep] + tail)[1..] == tail;
      assert Split([sep] + tail, sep) == [""] + Split(tail, sep);
      assert parts[0] + "" == parts[0];
      assert parts == [parts[0]] + parts[1..];
    }
  }

  // ---------------------------------------------------------------------------
  // strings.Replace(s, string(from), string(to), -1)
  // ---------------------------------------------------------------------------

  /** Every occurrence of `from` in `s` replaced by `to`. */
  function ReplaceAll(s: string, from: char, to: char): (r: string)
    ensures |r| == |s|
    decreases |s|
  {
    if |s| == 0 then ""
    else [if s[0] == from then to else s[0]] + ReplaceAll(s[1..], from, to)
  }

  /** Each character is replaced where it was, and only the occurrences of `from` change. */
  lemma {:induction false} ReplaceAllAt(s: string, from: char, to: char)
    ensures forall i :: 0 <= i < |s| ==> ReplaceAll(s, from, to)[i] == (if s[i] == from then to else s[i])
    decreases |s|
  {
    if |s| > 0 {
      ReplaceAllAt(s[1..], from, to);
      var r := ReplaceAll(s, from, to);
      assert r[1..] == ReplaceAll(s[1..], from, to);
    }
  }

  // ---------------------------------------------------------------------------
  // strconv.Itoa and strconv.Atoi
  // ---------------------------------------------------------------------------

  predicate IsDigit(c: char) {
    '0' <= c <= '9'
  }

  predicate AllDigits(s: string) {
    forall i :: 0 <= i < |s| ==> IsDigit(s[i])
  }

  function DigitChar(d: nat): (c: char)
    requires d < 10
    ensures IsDigit(c) && c as int - '0' as int == d
  {
    ('0' as int + d) as char
  }

  /** The value of a string of decimal digits, most significant first. */
  function DecimalValue(ds: string): nat
    requires AllDigits(ds)
    decreases |ds|
  {
    if |ds| == 0 then 0
    else DecimalValue(ds[..|ds| - 1]) * 10 + (ds[|ds| - 1] as int - '0' as int)
  }

  /** The shortest decimal rendering of a natural number. */
  function Digits(n: nat): (ds: string)
    ensures |ds| >= 1 && AllDigits(ds)
    decreases n
  {
    if n < 10 then [DigitChar(n)] else Digits(n / 10) + [DigitChar(n % 10)]
  }

  /** `strconv.Itoa`: a minus sign for negative numbers, then the digits. */
  function Itoa(n: int): (s: string)
    ensures |s| >= 1
    ensures forall i :: 0 <= i < |s| ==> s[i] == '-' || IsDigit(s[i])
  {
    if n < 0 then "-" + Digits(-n) else Digits(n)
  }

  /**
   * `strconv.Atoi` for a 64-bit `int`: an optional `+` or `-`, at least one
   * decimal digit and nothing else, with a value that fits; anything else is
   * an error (a syntax error or a range error, which callers do not tell apart).
   */
  function Atoi(s: string): (r: Option<Int64>)
    ensures r.Some? ==> |s| >= 1 && (IsDigit(s[0]) || s[0] == '-' || s[0] == '+') && AllDigits(s[1..])
    ensures r.Some? && s[0] != '-' ==> r.value >= 0
  {
    if |s| == 0 then None
    else
      var body := if s[0] == '-' || s[0] == '+' then s[1..] else s;
      if |body| == 0 || !AllDigits(body) then None
      else
        var v: int := if s[0] == '-' then -(DecimalValue(body) as int) else DecimalValue(body);
        if MinInt64 <= v <= MaxInt64 then Some(v) else None
  }

  lemma {:induction false} DecimalValueOfDigits(n: nat)
    ensures DecimalValue(Digits(n)) == n
    decreases n
  {
    if n >= 10 {
      var ds := Digits(n);
      DecimalValueOfDigits(n / 10);
      assert ds[..|ds| - 1] == Digits(n / 10);
    }
  }

  /** `Atoi` reads back every number `Itoa` writes. */
  lemma AtoiItoa(n: Int64)
    ensures Atoi(Itoa(n)) == Some(n)
  {
    if n < 0 {
      var m: nat := -(n as int);
      DecimalValueOfDigits(m);
      assert Itoa(n)[1..] == Digits(m);
    } else {
      DecimalValueOfDigits(n);
    }
  }

  /** Distinct numbers are written differently. */
  lemma ItoaInjective(a: Int64, b: Int64)
    requires Itoa(a) == Itoa(b)
    ensures a == b
  {
    AtoiItoa(a);
    AtoiItoa(b);
  }
}
