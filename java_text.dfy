/** The few java.lang.String and java.lang.Long operations the chat relay relies on,
    with the edge cases the Java library gives them: `String.indexOf(char)`,
    `String.split(" ", limit)` for a positive limit and for limit 0, string
    concatenation of a `long`, `Long.parseLong`, and wrap-around of `long` addition. */
module JavaText {

  datatype Option<T> = None | Some(value: T)

  const LONG_MIN: int := -0x8000_0000_0000_0000
  const LONG_MAX: int := 0x7FFF_FFFF_FFFF_FFFF

  /** A value of Java's 64-bit `long`. */
  predicate IsLong(n: int) {
    LONG_MIN <= n <= LONG_MAX
  }

  /** The `long` that Java's two's-complement arithmetic leaves for the exact value `n`. */
  function WrapLong(n: int): (r: int)
    ensures IsLong(r)
    ensures IsLong(n) ==> r == n
    ensures LONG_MAX < n <= LONG_MAX + 0x1_0000_0000_0000_0000 ==> r == n - 0x1_0000_0000_0000_0000
  {
    (n - LONG_MIN) % 0x1_0000_0000_0000_0000 + LONG_MIN
  }

  // ---------------------------------------------------------------- indexOf

  /** `s.indexOf(c)`: the first position of `c` in `s`, or None where Java returns -1. */
  function IndexOf(s: string, c: char): (r: Option<nat>)
    ensures r.None? <==> c !in s
    ensures r.Some? ==> r.value < |s| && s[r.value] == c && c !in s[..r.value]
  {
    if |s| == 0 then None
    else if s[0] == c then Some(0)
    else
      match IndexOf(s[1..], c)
      case None => None
      case Some(i) =>
        assert s[1..][..i] == s[1..i + 1];
        assert s[..i + 1] == [s[0]] + s[1..i + 1];
        Some(i + 1)
  }

  // ---------------------------------------------------------------- split

  /** `Join(fs, sep)`: the fields `fs` with one `sep` between neighbours (`String.join`). */
  function Join(fields: seq<string>, sep: char): string {
    if |fields| == 0 then ""
    else if |fields| == 1 then fields[0]
    else fields[0] + [sep] + Join(fields[1..], sep)
  }

  /** Every field of `s` between occurrences of `sep`, empty ones included. */
  function Fields(s: string, sep: char): (r: seq<string>)
    ensures |r| >= 1
    decreases |s|
  {
    match IndexOf(s, sep)
    case None => [s]
    case Some(i) => [s[..i]] + Fields(s[i + 1..], sep)
  }

  /** `s.split(sep, limit)` for a one-character separator and `limit > 0`: at most
      `limit` fields, the last of which holds the unsplit remainder; trailing empty
      fields are kept, and a string without `sep` gives `[s]`. */
  function SplitLimit(s: string, sep: char, limit: nat): (r: seq<string>)
    requires limit >= 1
    ensures 1 <= |r| <= limit
    decreases limit
  {
    match IndexOf(s, sep)
    case None => [s]
    case Some(i) =>
      if limit == 1 then [s] else [s[..i]] + SplitLimit(s[i + 1..], sep, limit - 1)
  }

  /** `fs` without its trailing run of empty strings. */
  function DropTrailingEmpty(fs: seq<string>): (r: seq<string>)
    ensures r <= fs
    ensures forall k :: |r| <= k < |fs| ==> fs[k] == ""
    ensures |r| > 0 ==> r[|r| - 1] != ""
  {
    if |fs| == 0 then []
    else if fs[|fs| - 1] == "" then DropTrailingEmpty(fs[..|fs| - 1])
    else fs
  }

  /** `s.split(sep)` (limit 0): trailing empty fields are dropped, except that a string
      in which `sep` does not occur splits to `[s]`, even the empty string. */
  function Split(s: string, sep: char): (r: seq<string>)
    ensures FreeOf(r, sep)
  {
    if sep in s then
      FieldsFree(s, sep);
      DropTrailingEmpty(Fields(s, sep))
    else [s]
  }

  /** Joining a field in front of at least one more puts one `sep` between them. */
  lemma JoinCons(head: string, tail: seq<string>, sep: char)
    requires |tail| >= 1
    ensures Join([head] + tail, sep) == head + [sep] + Join(tail, sep)
  {
    assert ([head] + tail)[1..] == tail;
  }

  /** Splitting with a limit loses nothing: joining the fields gives `s` back. */
  lemma {:induction false} SplitLimitJoin(s: string, sep: char, limit: nat)
    requires limit >= 1
    ensures Join(SplitLimit(s, sep, limit), sep) == s
    decreases limit
  {
    var found := IndexOf(s, sep);
    if found.Some? && limit > 1 {
      var i := found.value;
      var tail := SplitLimit(s[i + 1..], sep, limit - 1);
      SplitLimitJoin(s[i + 1..], sep, limit - 1);
      assert SplitLimit(s, sep, limit) == [s[..i]] + tail;
      JoinAround(s, i, tail);
    } else {
      assert SplitLimit(s, sep, limit) == [s];
    }
  }

  /** Cutting `s` at a separator at `i` and joining the part before it to fields that
      spell the rest gives `s` back. */
  lemma JoinAround(s: string, i: nat, tail: seq<string>)
    requires i < |s| && |tail| >= 1 && Join(tail, s[i]) == s[i + 1..]
    ensures Join([s[..i]] + tail, s[i]) == s
  {
    JoinCons(s[..i], tail, s[i]);
    Reassemble(s, i);
  }

  /** A string is the part before position `i`, the character there, and the rest. */
  lemma Reassemble(s: string, i: nat)
    requires i < |s|
    ensures s[..i] + [s[i]] + s[i + 1..] == s
  {
  }

  /** None of `fields` holds `sep`. */
  predicate FreeOf(fields: seq<string>, sep: char) {
    forall k :: 0 <= k < |fields| ==> sep !in fields[k]
  }

  /** Only the last of `fields` can hold `sep`, and it holds none when there are fewer
      than `limit` fields. */
  predicate LimitedShape(fields: seq<string>, sep: char, limit: nat) {
    |fields| >= 1 && FreeOf(fields[..|fields| - 1], sep) && (|fields| < limit ==> sep !in fields[|fields| - 1])
  }

  /** Only the last field of a limited split can hold `sep`, and it holds none when
      fewer than `limit` fields came out. */
  lemma {:induction false} SplitLimitFields(s: string, sep: char, limit: nat)
    requires limit >= 1
    ensures LimitedShape(SplitLimit(s, sep, limit), sep, limit)
    decreases limit
  {
    var found := IndexOf(s, sep);
    if found.Some? && limit > 1 {
      var i := found.value;
      var tail := SplitLimit(s[i + 1..], sep, limit - 1);
      SplitLimitFields(s[i + 1..], sep, limit - 1);
      assert SplitLimit(s, sep, limit) == [s[..i]] + tail;
      ShapeCons(s[..i], tail, sep, limit);
    } else {
      assert SplitLimit(s, sep, limit) == [s];
    }
  }

  /** A separator-free field in front of a split of the rest is a split one level up. */
  lemma ShapeCons(head: string, tail: seq<string>, sep: char, limit: nat)
    requires limit > 1 && sep !in head && LimitedShape(tail, sep, limit - 1)
    ensures LimitedShape([head] + tail, sep, limit)
  {
    var r := [head] + tail;
    assert r[..|r| - 1] == [head] + tail[..|tail| - 1];
    assert r[|r| - 1] == tail[|tail| - 1];
    FreeOfCons(head, tail[..|tail| - 1], sep);
  }

  lemma FreeOfCons(head: string, rest: seq<string>, sep: char)
    requires sep !in head && FreeOf(rest, sep)
    ensures FreeOf([head] + rest, sep)
  {
    var fs := [head] + rest;
    forall k | 0 <= k < |fs| ensures sep !in fs[k] {
      if k > 0 { assert fs[k] == rest[k - 1]; }
    }
  }

  /** The fields of `s` join back to `s`. */
  lemma {:induction false} FieldsJoin(s: string, sep: char)
    ensures Join(Fields(s, sep), sep) == s
    decreases |s|
  {
    var found := IndexOf(s, sep);
    if found.Some? {
      var i := found.value;
      var tail := Fields(s[i + 1..], sep);
      FieldsJoin(s[i + 1..], sep);
      assert Fields(s, sep) == [s[..i]] + tail;
      JoinAround(s, i, tail);
    }
  }

  /** No field of `s` holds `sep`. */
  lemma {:induction false} FieldsFree(s: string, sep: char)
    ensures FreeOf(Fields(s, sep), sep)
    decreases |s|
  {
    match IndexOf(s, sep)
    case None =>
    case Some(i) =>
      var tail := Fields(s[i + 1..], sep);
      assert Fields(s, sep) == [s[..i]] + tail;
      FieldsFree(s[i + 1..], sep);
      FreeOfCons(s[..i], tail, sep);
  }

  /** Conversely, fields free of `sep` are recovered exactly from their join. */
  lemma {:induction false} FieldsOfJoin(fs: seq<string>, sep: char)
    requires |fs| >= 1
    requires forall k :: 0 <= k < |fs| ==> sep !in fs[k]
    ensures Fields(Join(fs, sep), sep) == fs
    decreases |fs|
  {
    if |fs| == 1 {
      assert IndexOf(fs[0], sep).None?;
    } else {
      var s := Join(fs, sep);
      var head := fs[0];
      assert s == head + [sep] + Join(fs[1..], sep);
      IndexOfAfterFree(head, sep, Join(fs[1..], sep));
      assert s[..|head|] == head;
      assert s[|head| + 1..] == Join(fs[1..], sep);
      FieldsOfJoin(fs[1..], sep);
    }
  }

  /** In `a + [c] + b` with no `c` in `a`, the first `c` is the one after `a`. */
  lemma IndexOfAfterFree(a: string, c: char, b: string)
    requires c !in a
    ensures IndexOf(a + [c] + b, c) == Some(|a|)
  {
    var s := a + [c] + b;
    assert s[..|a|] == a;
    assert s[|a|] == c;
  }

  /** A separator-free first field is split off whole, and the split goes on after
      its separator. */
  lemma SplitLimitOfFree(a: string, sep: char, rest: string, limit: nat)
    requires sep !in a && limit >= 2
    ensures SplitLimit(a + [sep] + rest, sep, limit) == [a] + SplitLimit(rest, sep, limit - 1)
  {
    var s := a + [sep] + rest;
    IndexOfAfterFree(a, sep, rest);
    assert s[..|a|] == a && s[|a| + 1..] == rest;
  }

  /** `split(sep, 3)` of two separator-free fields and a rest, joined by `sep`, gives
      those three back. */
  lemma SplitLimitThreeOfJoin(a: string, b: string, c: string, sep: char)
    requires sep !in a && sep !in b
    ensures SplitLimit(a + [sep] + b + [sep] + c, sep, 3) == [a, b, c]
  {
    var rest := b + [sep] + c;
    assert a + [sep] + b + [sep] + c == a + [sep] + rest;
    SplitLimitOfFree(a, sep, rest, 3);
    SplitLimitOfFree(b, sep, c, 2);
    assert SplitLimit(c, sep, 1) == [c];
  }

  /** A string splits to no tokens at all exactly when it is non-empty and made only of `sep`. */
  lemma SplitEmptyIff(s: string, sep: char)
    ensures Split(s, sep) == [] <==> (|s| > 0 && forall k :: 0 <= k < |s| ==> s[k] == sep)
  {
    if sep in s {
      FieldsAllEmptyIff(s, sep);
      var fs := Fields(s, sep);
      if DropTrailingEmpty(fs) == [] {
        assert AllEmpty(fs);
      } else {
        var r := DropTrailingEmpty(fs);
        assert fs[|r| - 1] == r[|r| - 1] != "";
      }
    } else if |s| > 0 {
      assert s[0] != sep;
    }
  }

  /** Every field of `s` is empty exactly when `s` holds nothing but separators. */
  lemma {:induction false} FieldsAllEmptyIff(s: string, sep: char)
    ensures AllEmpty(Fields(s, sep)) <==> OnlySep(s, sep)
    decreases |s|
  {
    var fs := Fields(s, sep);
    match IndexOf(s, sep)
    case None =>
      assert fs == [s];
      if |s| > 0 { assert fs[0] != ""; assert s[0] != sep; }
    case Some(i) =>
      var rest := s[i + 1..];
      var tail := Fields(rest, sep);
      FieldsAllEmptyIff(rest, sep);
      assert fs == [s[..i]] + tail;
      if OnlySep(s, sep) {
        assert i == 0;
        assert OnlySep(rest, sep) by {
          forall k | 0 <= k < |rest| ensures rest[k] == sep { assert rest[k] == s[k + 1]; }
        }
        forall k | 0 <= k < |fs| ensures fs[k] == "" {
          if k > 0 { assert fs[k] == tail[k - 1]; }
        }
      }
      if AllEmpty(fs) {
        assert fs[0] == s[..i] == "";
        assert i == 0;
        assert AllEmpty(tail) by {
          forall k | 0 <= k < |tail| ensures tail[k] == "" { assert tail[k] == fs[k + 1]; }
        }
        forall k | 0 <= k < |s| ensures s[k] == sep {
          if k > 0 { assert s[k] == rest[k - 1]; }
        }
      }
  }

  predicate AllEmpty(fields: seq<string>) {
    forall k :: 0 <= k < |fields| ==> fields[k] == ""
  }

  predicate OnlySep(s: string, sep: char) {
    forall k :: 0 <= k < |s| ==> s[k] == sep
  }

  /** The tokens of `s.split(sep)` hold no `sep`, and the last of them is never empty
      once `sep` occurs in `s`. */
  lemma SplitTokens(s: string, sep: char)
    ensures forall k :: 0 <= k < |Split(s, sep)| ==> sep !in Split(s, sep)[k]
    ensures sep in s && |Split(s, sep)| > 0 ==> Split(s, sep)[|Split(s, sep)| - 1] != ""
  {
    if sep in s {
      FieldsFree(s, sep);
      var fs := Fields(s, sep);
      var r := DropTrailingEmpty(fs);
      forall k | 0 <= k < |r| ensures sep !in r[k] { assert r[k] == fs[k]; }
    }
  }

  // ---------------------------------------------------------------- decimal numbers

  predicate IsDigit(c: char) {
    '0' <= c <= '9'
  }

  predicate AllDigits(s: string) {
    forall k :: 0 <= k < |s| ==> IsDigit(s[k])
  }

  /** The value of a run of decimal digits, most significant first. */
  function DigitsValue(s: string): nat
    requires AllDigits(s)
  {
    if |s| == 0 then 0 else DigitsValue(s[..|s| - 1]) * 10 + (s[|s| - 1] as int - '0' as int)
  }

  function DigitChar(d: nat): (c: char)
    requires d < 10
    ensures IsDigit(c) && c as int - '0' as int == d
  {
    (d + '0' as int) as char
  }

  /** The decimal form of a natural number, as `Long.toString` writes it. */
  function NatToDecimal(n: nat): (r: string)
    ensures |r| >= 1 && AllDigits(r)
    ensures DigitsValue(r) == n
    ensures |r| == 1 || r[0] != '0'
  {
    if n < 10 then [DigitChar(n)]
    else
      var high := NatToDecimal(n / 10);
      var r := high + [DigitChar(n % 10)];
      assert r[..|r| - 1] == high;
      assert |high| == 1 ==> high[0] != '0' by {
        if |high| == 1 {
          assert high[..0] == [];
        }
      }
      r
  }

  /** The decimal form of an integer, with a leading '-' when it is negative. */
  function IntToDecimal(n: int): (r: string)
    ensures |r| >= 1 && (r[0] == '-' <==> n < 0)
    ensures n >= 0 ==> AllDigits(r) && DigitsValue(r) == n && (|r| == 1 || r[0] != '0')
    ensures n < 0 ==> |r| >= 2 && AllDigits(r[1..]) && DigitsValue(r[1..]) == -n && (|r| == 2 || r[1] != '0')
  {
    if n < 0 then "-" + NatToDecimal(-n) else NatToDecimal(n)
  }

  /** An optional sign followed by at least one decimal digit. */
  predicate Numeral(s: string) {
    && |s| > 0
    && (IsDigit(s[0]) || ((s[0] == '-' || s[0] == '+') && |s| > 1))
    && AllDigits(s[1..])
  }

  /** The value a numeral denotes: its digits read in base ten, negated after a '-'. */
  function NumeralValue(s: string): int
    requires Numeral(s)
  {
    if IsDigit(s[0]) then
      assert AllDigits(s) by { assert forall k :: 1 <= k < |s| ==> s[k] == s[1..][k - 1]; }
      DigitsValue(s)
    else if s[0] == '-' then 0 - DigitsValue(s[1..])
    else DigitsValue(s[1..])
  }

  /** `Long.parseLong(s)`: an optional '+' or '-' followed by at least one decimal digit,
      denoting a value in the range of `long`; None where Java throws
      NumberFormatException. */
  function ParseLong(s: string): (r: Option<int>)
    ensures r.Some? <==> Numeral(s) && IsLong(NumeralValue(s))
    ensures r.Some? ==> r.value == NumeralValue(s)
  {
    if |s| == 0 then None
    else
      var digits := if s[0] == '-' || s[0] == '+' then s[1..] else s;
      if |digits| == 0 || !AllDigits(digits) then None
      else
        var v: int := if s[0] == '-' then 0 - DigitsValue(digits) else DigitsValue(digits);
        if IsLong(v) then Some(v) else None
  }

  /** Every `long` survives printing it in decimal and parsing it back. */
  lemma ParseLongOfDecimal(n: int)
    requires IsLong(n)
    ensures ParseLong(IntToDecimal(n)) == Some(n)
  {
    var s := IntToDecimal(n);
    if n < 0 {
      assert s[1..] == NatToDecimal(-n);
    }
  }
}
