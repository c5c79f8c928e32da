/** The pieces of Ruby's String behaviour the model relies on: ordering (`<=>`), `join`,
    `split` with a string separator, `strip`, `to_i`, `include?`, `start_with?` and the
    decimal rendering of integers used by string interpolation. */
module Strings {

  // ---------------------------------------------------------------------------
  // Ordering

  /** Ruby's `String#<=>`: lexicographic by character, a proper prefix first. */
  function Compare(a: string, b: string): (r: int)
    ensures -1 <= r <= 1
    ensures r == 0 <==> a == b
    decreases |a|
  {
    if |a| == 0 && |b| == 0 then 0
    else if |a| == 0 then -1
    else if |b| == 0 then 1
    else if a[0] < b[0] then -1
    else if a[0] > b[0] then 1
    else
      var r := Compare(a[1..], b[1..]);
      assert r == 0 ==> a == [a[0]] + a[1..] == [b[0]] + b[1..] == b;
      r
  }

  predicate Le(a: string, b: string) {
    Compare(a, b) <= 0
  }

  lemma {:induction false} CompareAntisymmetric(a: string, b: string)
    ensures Compare(a, b) == -Compare(b, a)
    decreases |a|
  {
    if |a| > 0 && |b| > 0 && a[0] == b[0] {
      CompareAntisymmetric(a[1..], b[1..]);
    }
  }

  lemma LeTotal(a: string, b: string)
    ensures Le(a, b) || Le(b, a)
  {
    CompareAntisymmetric(a, b);
  }

  lemma {:induction false} LeTransitive(a: string, b: string, c: string)
    requires Le(a, b) && Le(b, c)
    ensures Le(a, c)
    decreases |a|
  {
    if |a| > 0 && |b| > 0 && |c| > 0 && a[0] == b[0] == c[0] {
      LeTransitive(a[1..], b[1..], c[1..]);
    }
  }

  // ---------------------------------------------------------------------------
  // Joining and splitting

  /** `parts.join(sep)`. */
  function Join(parts: seq<string>, sep: string): string {
    if |parts| == 0 then ""
    else if |parts| == 1 then parts[0]
    else parts[0] + sep + Join(parts[1..], sep)
  }

  /** Every field of `s` between occurrences of a non-empty separator, empty fields included. */
  function SplitFields(s: string, sep: string): (r: seq<string>)
    requires |sep| > 0
    ensures |r| >= 1
    decreases |s|
  {
    if |s| < |sep| then [s]
    else if s[..|sep|] == sep then [""] + SplitFields(s[|sep|..], sep)
    else
      var rest := SplitFields(s[1..], sep);
      [[s[0]] + rest[0]] + rest[1..]
  }

  /** Removes the empty strings at the end of a list of fields. */
  function DropTrailingEmpty(fields: seq<string>): (r: seq<string>)
    ensures |r| <= |fields| && r == fields[..|r|]
    ensures |r| == 0 || r[|r| - 1] != ""
    ensures forall i | |r| <= i < |fields| :: fields[i] == ""
  {
    if |fields| == 0 then []
    else if fields[|fields| - 1] == "" then DropTrailingEmpty(fields[..|fields| - 1])
    else fields
  }

  /** Ruby's `String#split(sep)` for a plain string separator: the fields, with trailing
      empty fields removed (so `"".split(",") == []`). */
  function Split(s: string, sep: string): (r: seq<string>)
    requires |sep| > 0
  {
    DropTrailingEmpty(SplitFields(s, sep))
  }

  lemma {:induction false} SplitFieldsJoin(parts: seq<string>, c: char)
    requires |parts| > 0
    requires forall i | 0 <= i < |parts| :: c !in parts[i]
    ensures SplitFields(Join(parts, [c]), [c]) == parts
    decreases |parts|, |parts[0]|
  {
    if |parts| == 1 {
      FieldWithoutSeparator(parts[0], c);
    } else if |parts[0]| == 0 {
      var s := Join(parts, [c]);
      JoinEmptyHead(parts, c);
      SplitFieldsJoin(parts[1..], c);
      assert SplitFields(s, [c]) == [""] + parts[1..];
      assert parts == [""] + parts[1..];
    } else {
      var s := Join(parts, [c]);
      var p0 := parts[0];
      var shorter := [p0[1..]] + parts[1..];
      assert p0[0] != c by { assert p0[0] in p0; }
      JoinShorterHead(parts, c);
      ShorterWithoutSeparator(parts, c);
      SplitFieldsJoin(shorter, c);
      assert [p0[0]] + p0[1..] == p0;
    }
  }

  lemma JoinEmptyHead(parts: seq<string>, c: char)
    requires |parts| > 1 && parts[0] == ""
    ensures var s := Join(parts, [c]); |s| >= 1 && s[..1] == [c] && s[1..] == Join(parts[1..], [c])
  {
    var s := Join(parts, [c]);
    assert s == [c] + Join(parts[1..], [c]);
  }

  lemma JoinShorterHead(parts: seq<string>, c: char)
    requires |parts| > 1 && |parts[0]| > 0 && parts[0][0] != c
    ensures var s := Join(parts, [c]);
            |s| >= 1 && s[..1] != [c] && s[0] == parts[0][0]
            && s[1..] == Join([parts[0][1..]] + parts[1..], [c])
  {
    var s := Join(parts, [c]);
    var p0 := parts[0];
    var shorter := [p0[1..]] + parts[1..];
    assert Join(shorter, [c]) == p0[1..] + [c] + Join(parts[1..], [c]);
    assert s == [p0[0]] + Join(shorter, [c]);
  }

  lemma ShorterWithoutSeparator(parts: seq<string>, c: char)
    requires |parts| > 1 && |parts[0]| > 0
    requires forall i | 0 <= i < |parts| :: c !in parts[i]
    ensures forall i | 0 <= i < |parts| :: c !in ([parts[0][1..]] + parts[1..])[i]
  {
    var shorter := [parts[0][1..]] + parts[1..];
    forall i | 0 <= i < |shorter| ensures c !in shorter[i] {
      if i == 0 {
        assert forall x | x in parts[0][1..] :: x in parts[0];
      } else {
        assert shorter[i] == parts[i];
      }
    }
  }

  lemma {:induction false} FieldWithoutSeparator(s: string, c: char)
    requires c !in s
    ensures SplitFields(s, [c]) == [s]
    decreases |s|
  {
    if |s| >= 1 {
      assert s[0] in s;
      assert s[..1] != [c];
      assert forall x | x in s[1..] :: x in s;
      FieldWithoutSeparator(s[1..], c);
      assert [s[0]] + s[1..] == s;
    }
  }

  /** Splitting a join on a one-character separator gives the parts back, provided no part
      contains the separator and the last part is not empty (Ruby drops trailing empties). */
  lemma SplitJoin(parts: seq<string>, c: char)
    requires forall i | 0 <= i < |parts| :: c !in parts[i]
    requires |parts| == 0 || parts[|parts| - 1] != ""
    ensures Split(Join(parts, [c]), [c]) == parts
  {
    if |parts| == 0 {
      assert SplitFields("", [c]) == [""];
    } else {
      SplitFieldsJoin(parts, c);
    }
  }

  // ---------------------------------------------------------------------------
  // Whitespace

  /** The characters Ruby's `String#strip` removes. */
  predicate IsSpace(c: char) {
    c == ' ' || c == '\t' || c == '\n' || c == '\r' || c == '\0' || c == '\U{000B}' || c == '\U{000C}'
  }

  /** The characters of the POSIX class `[[:space:]]` as Ruby's regular expressions read
      it on Unicode strings (the White_Space property), which ActiveSupport's `blank?`
      matches. */
  predicate IsBlankChar(c: char) {
    || ('\t' <= c <= '\r') || c == ' ' || c == '\U{0085}' || c == '\U{00A0}' || c == '\U{1680}'
    || ('\U{2000}' <= c <= '\U{200A}') || c == '\U{2028}' || c == '\U{2029}' || c == '\U{202F}'
    || c == '\U{205F}' || c == '\U{3000}'
  }

  function LStrip(s: string): (r: string)
    ensures |r| <= |s| && r == s[|s| - |r|..]
    ensures |r| == 0 || !IsSpace(r[0])
  {
    if |s| > 0 && IsSpace(s[0]) then LStrip(s[1..]) else s
  }

  function RStrip(s: string): (r: string)
    ensures |r| <= |s| && r == s[..|r|]
    ensures |r| == 0 || !IsSpace(r[|r| - 1])
  {
    if |s| > 0 && IsSpace(s[|s| - 1]) then RStrip(s[..|s| - 1]) else s
  }

  /** `String#strip`: what remains of `s` once its leading whitespace (a suffix of `s`) and
      then its trailing whitespace (a prefix of that) are removed. */
  function Strip(s: string): (r: string)
    ensures |r| <= |LStrip(s)| && r == LStrip(s)[..|r|]
    ensures |r| == 0 || (!IsSpace(r[0]) && !IsSpace(r[|r| - 1]))
    ensures (|s| == 0 || (!IsSpace(s[0]) && !IsSpace(s[|s| - 1]))) ==> r == s
  {
    var l := LStrip(s);
    assert |l| > 0 ==> l[|l| - 1] == s[|s| - 1];
    var r := RStrip(l);
    assert |r| > 0 ==> r[0] == l[0];
    assert (|s| == 0 || (!IsSpace(s[0]) && !IsSpace(s[|s| - 1]))) ==> l == s && r == s;
    r
  }

  // ---------------------------------------------------------------------------
  // Numbers

  predicate IsDigit(c: char) {
    '0' <= c <= '9'
  }

  function DigitValue(c: char): nat
    requires IsDigit(c)
  {
    (c as int) - ('0' as int)
  }

  function DigitChar(d: nat): (c: char)
    requires d < 10
    ensures IsDigit(c) && DigitValue(c) == d
  {
    (('0' as int) + d) as char
  }

  /** The digits of the numeral at the start of `s`: a run of digits in which a single
      underscore may separate two digits, as in `1_000`; the underscores are dropped. */
  function Numeral(s: string): (d: string)
    ensures |d| <= |s|
    ensures forall i | 0 <= i < |d| :: IsDigit(d[i])
    ensures |d| > 0 <==> |s| > 0 && IsDigit(s[0])
    decreases |s|
  {
    if |s| == 0 || !IsDigit(s[0]) then ""
    else if |s| >= 3 && s[1] == '_' && IsDigit(s[2]) then [s[0]] + Numeral(s[2..])
    else [s[0]] + Numeral(s[1..])
  }

  /** The value of a string of decimal digits. */
  function DigitsValue(s: string): nat
    requires forall i | 0 <= i < |s| :: IsDigit(s[i])
  {
    if |s| == 0 then 0 else 10 * DigitsValue(s[..|s| - 1]) + DigitValue(s[|s| - 1])
  }

  /** Decimal rendering of a natural number, as Ruby's `Integer#to_s`: no leading zero. */
  function NatToString(n: nat): (r: string)
    ensures |r| > 0
    ensures forall i | 0 <= i < |r| :: IsDigit(r[i])
    ensures |r| == 1 <==> n < 10
    ensures |r| > 1 ==> r[0] != '0'
  {
    if n < 10 then [DigitChar(n)] else NatToString(n / 10) + [DigitChar(n % 10)]
  }

  function IntToString(n: int): string {
    if n < 0 then "-" + NatToString(-n) else NatToString(n)
  }

  lemma {:induction false} NatToStringValue(n: nat)
    ensures DigitsValue(NatToString(n)) == n
  {
    if n >= 10 {
      var r := NatToString(n);
      assert r[..|r| - 1] == NatToString(n / 10);
      NatToStringValue(n / 10);
    }
  }

  /** The characters C's `isspace` accepts, which `String#to_i` skips before the number;
      unlike `strip`, NUL is not among them. */
  predicate IsCSpace(c: char) {
    c == ' ' || c == '\t' || c == '\n' || c == '\r' || c == '\U{000B}' || c == '\U{000C}'
  }

  function SkipCSpace(s: string): (r: string)
    ensures |r| <= |s| && r == s[|s| - |r|..]
    ensures |r| == 0 || !IsCSpace(r[0])
  {
    if |s| > 0 && IsCSpace(s[0]) then SkipCSpace(s[1..]) else s
  }

  /** `s` starts with `0d` or `0D`, the decimal prefix `to_i` accepts. */
  predicate DecimalPrefix(s: string) {
    |s| >= 2 && s[0] == '0' && (s[1] == 'd' || s[1] == 'D')
  }

  function DropDecimalPrefix(s: string): (r: string)
    ensures DecimalPrefix(s) ==> r == s[2..]
    ensures !DecimalPrefix(s) ==> r == s
  {
    if DecimalPrefix(s) then s[2..] else s
  }

  /** Ruby's `String#to_i`: leading whitespace, an optional sign, an optional `0d` prefix,
      then the numeral; 0 when there is none. */
  function ToI(s: string): int {
    SignedValue(SkipCSpace(s))
  }

  /** The value of an optional sign followed by an optionally prefixed numeral. */
  function SignedValue(t: string): int {
    if |t| > 0 && (t[0] == '-' || t[0] == '+') then
      var m: int := NumeralValue(t[1..]);
      if t[0] == '-' then -m else m
    else NumeralValue(t)
  }

  function NumeralValue(t: string): nat {
    DigitsValue(Numeral(DropDecimalPrefix(t)))
  }

  /** `to_i` reads back what `to_s` wrote. */
  lemma ToIIntToString(n: int)
    ensures ToI(IntToString(n)) == n
  {
    var d := NatToString(if n < 0 then -n else n);
    NatToStringValue(if n < 0 then -n else n);
    ToIDigits(d);
  }

  /** A numeral without a leading zero, signed or not, reads back as its value. */
  lemma ToIDigits(d: string)
    requires |d| > 0 && forall i | 0 <= i < |d| :: IsDigit(d[i])
    requires |d| > 1 ==> d[0] != '0'
    ensures ToI(d) == DigitsValue(d)
    ensures ToI("-" + d) == -(DigitsValue(d) as int)
  {
    NumeralValueDigits(d);
    UnsignedStart(d);
    SignedStart("-" + d, d);
  }

  lemma NumeralValueDigits(d: string)
    requires |d| > 0 && forall i | 0 <= i < |d| :: IsDigit(d[i])
    requires |d| > 1 ==> d[0] != '0'
    ensures NumeralValue(d) == DigitsValue(d)
  {
    assert !DecimalPrefix(d) by { assert |d| > 1 ==> IsDigit(d[1]); }
    NumeralAll(d);
  }

  /** Nothing is skipped before a digit and there is no sign. */
  lemma UnsignedStart(d: string)
    requires |d| > 0 && IsDigit(d[0])
    ensures ToI(d) == NumeralValue(d)
  {
    assert !IsCSpace(d[0]);
    assert SkipCSpace(d) == d;
  }

  lemma SignedStart(s: string, d: string)
    requires s == "-" + d
    ensures ToI(s) == -(NumeralValue(d) as int)
  {
    assert s[0] == '-' && s[1..] == d;
    assert SkipCSpace(s) == s;
  }

  lemma {:induction false} NumeralAll(s: string)
    requires forall i | 0 <= i < |s| :: IsDigit(s[i])
    ensures Numeral(s) == s
    decreases |s|
  {
    if |s| > 0 {
      NumeralAll(s[1..]);
      assert s == [s[0]] + s[1..];
    }
  }

  /** A numeral ends where neither a digit nor an underscore followed by a digit comes. */
  predicate NumeralEnds(rest: string) {
    |rest| == 0 || (!IsDigit(rest[0]) && !(rest[0] == '_' && |rest| > 1 && IsDigit(rest[1])))
  }

  lemma {:induction false} NumeralStops(a: string, rest: string)
    requires |a| > 0 && forall i | 0 <= i < |a| :: IsDigit(a[i])
    requires NumeralEnds(rest)
    ensures Numeral(a + rest) == a
    decreases |a|
  {
    var s := a + rest;
    assert s[0] == a[0];
    if |a| == 1 {
      assert s[1..] == rest;
      assert |rest| > 1 ==> s[2] == rest[1];
    } else {
      assert s[1..] == a[1..] + rest;
      assert s[1] == a[1];
      NumeralStops(a[1..], rest);
      assert a == [a[0]] + a[1..];
    }
  }

  lemma {:induction false} NumeralUnderscore(a: string, b: string)
    requires |a| > 0 && forall i | 0 <= i < |a| :: IsDigit(a[i])
    requires |b| > 0 && forall i | 0 <= i < |b| :: IsDigit(b[i])
    ensures Numeral(a + "_" + b) == a + b
    decreases |a|
  {
    if |a| == 1 {
      var t := "_" + b;
      assert a + "_" + b == [a[0]] + t;
      assert t[0] == '_' && t[1] == b[0] && ([a[0]] + t)[2..] == b;
      NumeralAll(b);
    } else {
      var t := a[1..] + "_" + b;
      assert a + "_" + b == [a[0]] + t;
      assert t[0] == a[1];
      NumeralUnderscore(a[1..], b);
      assert a + b == [a[0]] + (a[1..] + b);
    }
  }

  /** A single underscore between two runs of digits is skipped, as in `1_000`. */
  lemma ToIUnderscore(a: string, b: string)
    requires |a| > 0 && forall i | 0 <= i < |a| :: IsDigit(a[i])
    requires |b| > 0 && forall i | 0 <= i < |b| :: IsDigit(b[i])
    ensures ToI(a + "_" + b) == DigitsValue(a + b)
  {
    var s := a + "_" + b;
    assert s[0] == a[0];
    UnsignedStart(s);
    assert !DecimalPrefix(s) by { assert |a| > 1 ==> s[1] == a[1]; assert |a| == 1 ==> s[1] == '_'; }
    NumeralUnderscore(a, b);
  }

  /** Whatever cannot continue the numeral ends it: `"1__0".to_i` and `"1.5".to_i` are 1.
      (`"0d5"` is the one reading where a digit and what follows form the prefix instead.) */
  lemma ToIStops(a: string, rest: string)
    requires |a| > 0 && forall i | 0 <= i < |a| :: IsDigit(a[i])
    requires NumeralEnds(rest) && !DecimalPrefix(a + rest)
    ensures ToI(a + rest) == DigitsValue(a)
  {
    var s := a + rest;
    assert s[0] == a[0];
    UnsignedStart(s);
    NumeralStops(a, rest);
  }

  /** The decimal prefix `0d` or `0D` is skipped. */
  lemma ToIDecimalPrefix(d: string)
    requires forall i | 0 <= i < |d| :: IsDigit(d[i])
    ensures ToI("0d" + d) == DigitsValue(d)
    ensures ToI("0D" + d) == DigitsValue(d)
  {
    NumeralAll(d);
    PrefixedDigits("0d" + d, d);
    PrefixedDigits("0D" + d, d);
  }

  lemma PrefixedDigits(s: string, d: string)
    requires |s| == |d| + 2 && s[0] == '0' && (s[1] == 'd' || s[1] == 'D') && s[2..] == d
    ensures ToI(s) == DigitsValue(Numeral(d))
  {
    UnsignedStart(s);
    assert DecimalPrefix(s);
  }

  /** NUL is not whitespace to `to_i`, so nothing after it is read. */
  lemma ToINul(s: string)
    ensures ToI("\0" + s) == 0
  {
    var t := "\0" + s;
    assert t[0] == '\0';
    assert SkipCSpace(t) == t;
    assert !DecimalPrefix(t);
  }

  // ---------------------------------------------------------------------------
  // Searching

  /** `s.start_with?(prefix)`. */
  predicate StartsWith(s: string, prefix: string) {
    |prefix| <= |s| && s[..|prefix|] == prefix
  }

  lemma StartsWithAppend(x: string, y: string, z: string)
    ensures StartsWith(x + y + z, x) && StartsWith(x + y + z, x + y)
  {
    assert (x + y + z)[..|x|] == x;
    assert (x + y + z)[..|x + y|] == x + y;
  }

  /** `s.include?(sub)`. */
  predicate Contains(s: string, sub: string)
    decreases |s|
  {
    StartsWith(s, sub) || (|s| > 0 && Contains(s[1..], sub))
  }

  /** ASCII `String#downcase`. */
  function Downcase(s: string): (r: string)
    ensures |r| == |s|
    ensures forall i | 0 <= i < |s| :: r[i] == (if 'A' <= s[i] <= 'Z' then (s[i] as int + 32) as char else s[i])
  {
    if |s| == 0 then ""
    else [if 'A' <= s[0] <= 'Z' then (s[0] as int + 32) as char else s[0]] + Downcase(s[1..])
  }
}
