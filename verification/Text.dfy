/**
 * String facts the rest of the model leans on: decimal numerals as
 * JavaScript writes and reads them, the order in which JavaScript's default
 * Array.prototype.sort() puts strings, suffix tests, and String.prototype.split
 * / Array.prototype.join for a one-character separator.
 */
module Text {

  // ---------------------------------------------------------------------------
  // Decimal digits
  // ---------------------------------------------------------------------------

  predicate IsDigit(c: char) {
    '0' <= c <= '9'
  }

  predicate AllDigits(s: string) {
    forall i :: 0 <= i < |s| ==> IsDigit(s[i])
  }

  function DigitValue(c: char): (d: nat)
    requires IsDigit(c)
    ensures d < 10
  {
    c as int - '0' as int
  }

  function DigitChar(d: nat): (c: char)
    requires d < 10
    ensures IsDigit(c) && DigitValue(c) == d
  {
    ('0' as int + d) as char
  }

  function Pow10(k: nat): (p: nat)
    ensures p >= 1
  {
    if k == 0 then 1 else 10 * Pow10(k - 1)
  }

  /** The numeral JavaScript's String(n) writes for a non-negative integer n. */
  function DecimalDigits(n: nat): (s: string)
    ensures 1 <= |s| && AllDigits(s)
    ensures (s[0] == '0') <==> n == 0
  {
    if n < 10 then [DigitChar(n)] else DecimalDigits(n / 10) + [DigitChar(n % 10)]
  }

  /** The value of a string of decimal digits, most significant first; leading zeros are allowed. */
  function DigitsValue(s: string): (v: nat)
    requires AllDigits(s)
    ensures v < Pow10(|s|)
  {
    if s == [] then 0
    else
      var init := s[..|s| - 1];
      var v0 := DigitsValue(init);
      assert v0 <= Pow10(|init|) - 1;
      assert v0 * 10 <= Pow10(|s|) - 10;
      v0 * 10 + DigitValue(s[|s| - 1])
  }

  /** `n` padded on the left with zeros to at least `width` characters (printf's %0<width>d). */
  function ZeroPad(n: nat, width: nat): (s: string)
    ensures AllDigits(s)
    ensures |s| == if |DecimalDigits(n)| < width then width else |DecimalDigits(n)|
  {
    var d := DecimalDigits(n);
    if |d| < width then Zeros(width - |d|) + d else d
  }

  function Zeros(k: nat): (z: string)
    ensures |z| == k && AllDigits(z)
  {
    seq(k, _ => '0')
  }

  /** Reading back the numeral String(n) gives n. */
  lemma {:induction false} DecimalDigitsValue(n: nat)
    ensures DigitsValue(DecimalDigits(n)) == n
  {
    if n >= 10 {
      var s := DecimalDigits(n / 10);
      DecimalDigitsValue(n / 10);
      assert (s + [DigitChar(n % 10)])[..|s|] == s;
    }
  }

  /** A number below 10^w needs at most w digits. */
  lemma {:induction false} DecimalDigitsLength(n: nat, w: nat)
    requires 1 <= w && n < Pow10(w)
    ensures |DecimalDigits(n)| <= w
  {
    if n >= 10 {
      assert w != 1;
      assert n / 10 < Pow10(w - 1);
      DecimalDigitsLength(n / 10, w - 1);
    }
  }

  lemma {:induction false} DigitsValueFront(s: string)
    requires AllDigits(s) && |s| >= 1
    ensures DigitsValue(s) == DigitValue(s[0]) * Pow10(|s| - 1) + DigitsValue(s[1..])
  {
    if |s| > 1 {
      var init, t := s[..|s| - 1], s[1..];
      DigitsValueFront(init);
      assert init[1..] == t[..|t| - 1];
      assert t[|t| - 1] == s[|s| - 1];
      var d0, P, r, l := DigitValue(s[0]), Pow10(|s| - 2), DigitsValue(init[1..]), DigitValue(s[|s| - 1]);
      assert DigitsValue(t) == r * 10 + l;
      assert DigitsValue(s) == DigitsValue(init) * 10 + l;
      assert Pow10(|s| - 1) == 10 * P;
      ShiftDigit(d0, P, r, l);
    }
  }

  lemma ShiftDigit(d: nat, P: nat, r: nat, l: nat)
    ensures (d * P + r) * 10 + l == d * (10 * P) + (r * 10 + l)
  {
    assert (d * P) * 10 == d * (10 * P);
  }

  /** Leading zeros do not change the value of a numeral. */
  lemma {:induction false} ZerosValue(k: nat, s: string)
    requires AllDigits(s)
    ensures DigitsValue(Zeros(k) + s) == DigitsValue(s)
  {
    if k == 0 {
      assert Zeros(k) + s == s;
    } else {
      var t := Zeros(k) + s;
      DigitsValueFront(t);
      assert t[1..] == Zeros(k - 1) + s;
      ZerosValue(k - 1, s);
    }
  }

  /** The padded numeral still reads back as n. */
  lemma ZeroPadValue(n: nat, width: nat)
    ensures DigitsValue(ZeroPad(n, width)) == n
  {
    DecimalDigitsValue(n);
    PaddedValue(DecimalDigits(n), width);
  }

  lemma PaddedValue(d: string, width: nat)
    requires AllDigits(d)
    ensures DigitsValue(if |d| < width then Zeros(width - |d|) + d else d) == DigitsValue(d)
  {
    if |d| < width {
      ZerosValue(width - |d|, d);
    }
  }

  /** Below 10^width the padded numeral is exactly `width` characters long. */
  lemma ZeroPadLength(n: nat, width: nat)
    requires 1 <= width && n < Pow10(width)
    ensures |ZeroPad(n, width)| == width
  {
    DecimalDigitsLength(n, width);
  }

  // ---------------------------------------------------------------------------
  // The order of JavaScript's default sort: UTF-16 code units
  // ---------------------------------------------------------------------------

  /**
   * A character as JavaScript strings hold it: one UTF-16 code unit below
   * U+10000, otherwise a high and a low surrogate.
   */
  function CodeUnits(c: char): (u: seq<int>)
    ensures 1 <= |u| <= 2
    ensures c as int < 0x1_0000 <==> |u| == 1
  {
    var v := c as int;
    if v < 0x1_0000 then [v]
    else [0xD800 + (v - 0x1_0000) / 0x400, 0xDC00 + (v - 0x1_0000) % 0x400]
  }

  /** Lexicographic order on code-unit sequences, the order the default sort compares by. */
  predicate UnitsLess(x: seq<int>, y: seq<int>) {
    if x == [] then y != []
    else y != [] && (x[0] < y[0] || (x[0] == y[0] && UnitsLess(x[1..], y[1..])))
  }

  /**
   * A rank of the character that orders characters as their code units do:
   * characters below U+D800 keep their value, a character above U+FFFF
   * (whose first unit is a surrogate, 0xD800..0xDBFF) ranks next, and
   * U+E000..U+FFFF rank last.
   */
  function UnitRank(c: char): (k: int)
    ensures c as int < 0xD800 ==> k == c as int
  {
    var v := c as int;
    if v < 0xD800 then v
    else if v < 0x1_0000 then v + 0x10_0000
    else v - 0x1_0000 + 0xD800
  }

  /** Different characters have different ranks. */
  lemma UnitRankInjective(a: char, b: char)
    requires a != b
    ensures UnitRank(a) != UnitRank(b)
  {
    assert a as int != b as int;
  }

  /** Comparing ranks is comparing the characters' UTF-16 code units. */
  lemma UnitRankOrder(a: char, b: char)
    ensures UnitRank(a) < UnitRank(b) <==> UnitsLess(CodeUnits(a), CodeUnits(b))
  {
    var x, y := a as int, b as int;
    var ua, ub := CodeUnits(a), CodeUnits(b);
    if x >= 0x1_0000 && y >= 0x1_0000 {
      var p, q := x - 0x1_0000, y - 0x1_0000;
      assert p == 0x400 * (p / 0x400) + p % 0x400;
      assert q == 0x400 * (q / 0x400) + q % 0x400;
      assert ua[1..] == [ua[1]] && ub[1..] == [ub[1]];
      assert UnitsLess([ua[1]], [ub[1]]) <==> ua[1] < ub[1];
      if p / 0x400 < q / 0x400 {
        assert p < q;
      } else if q / 0x400 < p / 0x400 {
        assert q < p;
      } else {
        assert p < q <==> p % 0x400 < q % 0x400;
      }
    } else if x >= 0x1_0000 {
      assert ua[0] <= 0xDBFF;
    } else if y >= 0x1_0000 {
      assert ub[0] <= 0xDBFF;
    }
  }

  /**
   * `a` comes strictly before `b` in the order of the default sort:
   * lexicographic on UTF-16 code units, with each character compared by its
   * rank.
   */
  predicate LexLess(a: string, b: string) {
    if a == [] then b != []
    else b != [] && (UnitRank(a[0]) < UnitRank(b[0]) || (a[0] == b[0] && LexLess(a[1..], b[1..])))
  }

  /** The flattened code units of a string. */
  function Utf16(s: string): seq<int> {
    if s == [] then [] else CodeUnits(s[0]) + Utf16(s[1..])
  }

  /** LexLess is the order of the strings' UTF-16 code units. */
  lemma {:induction false} LexLessUtf16(a: string, b: string)
    ensures LexLess(a, b) <==> UnitsLess(Utf16(a), Utf16(b))
  {
    if a != [] && b != [] {
      if a[0] == b[0] {
        LexLessUtf16(a[1..], b[1..]);
        UnitsLessCommonPrefix(CodeUnits(a[0]), Utf16(a[1..]), Utf16(b[1..]));
      } else {
        UnitRankInjective(a[0], b[0]);
        UnitRankOrder(a[0], b[0]);
        UnitRankOrder(b[0], a[0]);
        UnitsDiffer(a[0], b[0], Utf16(a[1..]), Utf16(b[1..]));
      }
    } else if a != [] {
      assert Utf16(a) != [];
    } else if b != [] {
      assert Utf16(b) != [];
    }
  }

  lemma {:induction false} UnitsLessCommonPrefix(p: seq<int>, x: seq<int>, y: seq<int>)
    ensures UnitsLess(p + x, p + y) == UnitsLess(x, y)
  {
    if p == [] {
      assert p + x == x && p + y == y;
    } else {
      assert (p + x)[1..] == p[1..] + x;
      assert (p + y)[1..] == p[1..] + y;
      UnitsLessCommonPrefix(p[1..], x, y);
    }
  }

  /**
   * Two different characters are told apart within their own code units,
   * whatever follows them: UTF-16 is prefix-free.
   */
  lemma UnitsDiffer(a: char, b: char, x: seq<int>, y: seq<int>)
    requires a != b
    ensures UnitsLess(CodeUnits(a) + x, CodeUnits(b) + y) == UnitsLess(CodeUnits(a), CodeUnits(b))
  {
    var ua, ub := CodeUnits(a), CodeUnits(b);
    assert (ua + x)[0] == ua[0] && (ub + y)[0] == ub[0];
    if ua[0] == ub[0] {
      // Equal first units: both characters lie above U+FFFF and their low surrogates differ.
      assert |ua| == 2 && |ub| == 2;
      var p, q := a as int - 0x1_0000, b as int - 0x1_0000;
      assert p == 0x400 * (p / 0x400) + p % 0x400;
      assert q == 0x400 * (q / 0x400) + q % 0x400;
      assert ua[1] != ub[1];
      assert (ua + x)[1..][0] == ua[1] && (ub + y)[1..][0] == ub[1];
      assert ua[1..][0] == ua[1] && ub[1..][0] == ub[1];
    }
  }

  predicate LexLessEq(a: string, b: string) {
    a == b || LexLess(a, b)
  }

  lemma {:induction false} LexLessIrreflexive(a: string)
    ensures !LexLess(a, a)
  {
    if a != [] {
      LexLessIrreflexive(a[1..]);
    }
  }

  lemma {:induction false} LexLessAsymmetric(a: string, b: string)
    ensures !(LexLess(a, b) && LexLess(b, a))
  {
    if a != [] && b != [] && a[0] == b[0] {
      LexLessAsymmetric(a[1..], b[1..]);
    }
  }

  lemma {:induction false} LexLessTransitive(a: string, b: string, c: string)
    requires LexLess(a, b) && LexLess(b, c)
    ensures LexLess(a, c)
  {
    if a != [] && a[0] == b[0] && b[0] == c[0] {
      LexLessTransitive(a[1..], b[1..], c[1..]);
    }
  }

  lemma {:induction false} LexLessTotal(a: string, b: string)
    ensures a == b || LexLess(a, b) || LexLess(b, a)
  {
    if a != [] && b != [] && a[0] != b[0] {
      UnitRankInjective(a[0], b[0]);
    } else if a != [] && b != [] {
      LexLessTotal(a[1..], b[1..]);
      if a[1..] == b[1..] {
        assert a == [a[0]] + a[1..] && b == [b[0]] + b[1..];
      }
    }
  }

  /** A shared prefix does not decide the order. */
  lemma {:induction false} LexLessCommonPrefix(p: string, x: string, y: string)
    ensures LexLess(p + x, p + y) == LexLess(x, y)
  {
    if p == [] {
      assert p + x == x && p + y == y;
    } else {
      assert (p + x)[1..] == p[1..] + x;
      assert (p + y)[1..] == p[1..] + y;
      LexLessCommonPrefix(p[1..], x, y);
    }
  }

  /** Two different strings of one length decide the order whatever follows them. */
  lemma {:induction false} LexLessAppend(a: string, b: string, x: string, y: string)
    requires |a| == |b| && a != b
    ensures LexLess(a + x, b + y) == LexLess(a, b)
  {
    assert (a + x)[0] == a[0] && (b + y)[0] == b[0];
    if a[0] == b[0] {
      assert a == [a[0]] + a[1..] && b == [b[0]] + b[1..];
      assert (a + x)[1..] == a[1..] + x;
      assert (b + y)[1..] == b[1..] + y;
      LexLessAppend(a[1..], b[1..], x, y);
    }
  }

  /** For numerals of one width, lexical order is numeric order. */
  lemma {:induction false} DigitsOrder(s: string, t: string)
    requires AllDigits(s) && AllDigits(t) && |s| == |t|
    ensures LexLess(s, t) <==> DigitsValue(s) < DigitsValue(t)
  {
    if s != [] {
      DigitsValueFront(s);
      DigitsValueFront(t);
      var P := Pow10(|s| - 1);
      var ds, dt := DigitValue(s[0]), DigitValue(t[0]);
      var rs, rt := DigitsValue(s[1..]), DigitsValue(t[1..]);
      if s[0] == t[0] {
        DigitsOrder(s[1..], t[1..]);
      } else if s[0] < t[0] {
        LeadingDigitDecides(ds, dt, rs, rt, P);
      } else {
        LeadingDigitDecides(dt, ds, rt, rs, P);
      }
    }
  }

  lemma LeadingDigitDecides(da: nat, db: nat, ra: nat, rb: nat, P: nat)
    requires da < db && ra < P
    ensures da * P + ra < db * P + rb
  {
    var k: nat := db - (da + 1);
    assert db * P == (da + 1) * P + k * P;
    assert (da + 1) * P == da * P + P;
  }

  // ---------------------------------------------------------------------------
  // Sorting
  // ---------------------------------------------------------------------------

  predicate LexSorted(s: seq<string>) {
    forall i, j :: 0 <= i < j < |s| ==> LexLessEq(s[i], s[j])
  }

  lemma LexLessEqTransitive(a: string, b: string, c: string)
    requires LexLessEq(a, b) && LexLessEq(b, c)
    ensures LexLessEq(a, c)
  {
    if a != b && b != c {
      LexLessTransitive(a, b, c);
    }
  }

  function Insert(x: string, s: seq<string>): (r: seq<string>)
    requires LexSorted(s)
    ensures LexSorted(r)
    ensures multiset(r) == multiset(s) + multiset{x}
  {
    if s == [] then [x]
    else if LexLessEq(x, s[0]) then
      assert forall j :: 0 <= j < |s| ==> LexLessEq(x, s[j]) by {
        forall j | 0 <= j < |s| ensures LexLessEq(x, s[j]) {
          LexLessEqTransitive(x, s[0], s[j]);
        }
      }
      [x] + s
    else
      LexLessTotal(x, s[0]);
      var rest := Insert(x, s[1..]);
      assert s == [s[0]] + s[1..];
      assert forall j :: 0 <= j < |rest| ==> LexLessEq(s[0], rest[j]) by {
        forall j | 0 <= j < |rest| ensures LexLessEq(s[0], rest[j]) {
          assert rest[j] in multiset(rest);
          if rest[j] != x {
            assert rest[j] in multiset(s[1..]);
            var k :| 0 <= k < |s[1..]| && s[1..][k] == rest[j];
            assert s[k + 1] == rest[j];
          }
        }
      }
      [s[0]] + rest
  }

  /** JavaScript's `array.sort()` on strings: the same elements, in lexical order. */
  function SortLex(s: seq<string>): (r: seq<string>)
    ensures LexSorted(r)
    ensures multiset(r) == multiset(s)
  {
    if s == [] then [] else
      assert s == [s[0]] + s[1..];
      Insert(s[0], SortLex(s[1..]))
  }

  /** No element occurs twice. */
  predicate Distinct<T(==)>(s: seq<T>) {
    forall i, j :: 0 <= i < j < |s| ==> s[i] != s[j]
  }

  /** A sequence has no repeats exactly when no element occurs twice in its multiset. */
  lemma {:induction false} DistinctCounts<T>(s: seq<T>)
    ensures Distinct(s) <==> forall x :: multiset(s)[x] <= 1
  {
    if s != [] {
      var init, last := s[..|s| - 1], s[|s| - 1];
      assert s == init + [last];
      DistinctCounts(init);
      if Distinct(s) {
        assert last !in init;
      }
      if forall x :: multiset(s)[x] <= 1 {
        assert forall x :: multiset(init)[x] <= multiset(s)[x];
        assert multiset(init)[last] == 0;
      }
    }
  }

  /** Reordering keeps a sequence free of repeats. */
  lemma DistinctPermutation<T>(s: seq<T>, t: seq<T>)
    requires multiset(s) == multiset(t) && Distinct(s)
    ensures Distinct(t)
  {
    DistinctCounts(s);
    DistinctCounts(t);
  }

  /** Two sorted sequences without repeats holding the same strings are the same sequence. */
  lemma {:induction false} SortedDistinctUnique(a: seq<string>, b: seq<string>)
    requires LexSorted(a) && Distinct(a) && LexSorted(b) && Distinct(b)
    requires forall x :: x in a <==> x in b
    ensures a == b
  {
    if a != [] {
      assert a[0] in a && b[0] in b;
      var i :| 0 <= i < |b| && b[i] == a[0];
      var j :| 0 <= j < |a| && a[j] == b[0];
      assert LexLessEq(b[0], a[0]) && LexLessEq(a[0], b[0]);
      LexLessAsymmetric(a[0], b[0]);
      forall x ensures x in a[1..] <==> x in b[1..] {
        if x in a[1..] {
          var k :| 0 <= k < |a[1..]| && a[1..][k] == x;
          assert a[k + 1] == x && x != a[0] && x in b;
          var l :| 0 <= l < |b| && b[l] == x;
          assert l != 0 && b[1..][l - 1] == x;
        }
        if x in b[1..] {
          var k :| 0 <= k < |b[1..]| && b[1..][k] == x;
          assert b[k + 1] == x && x != b[0] && x in a;
          var l :| 0 <= l < |a| && a[l] == x;
          assert l != 0 && a[1..][l - 1] == x;
        }
      }
      SortedDistinctUnique(a[1..], b[1..]);
      assert a == [a[0]] + a[1..] && b == [b[0]] + b[1..];
    } else {
      EmptyOrMember(b);
    }
  }

  lemma EmptyOrMember<T>(s: seq<T>)
    ensures s == [] || exists x :: x in s
  {
    if s != [] {
      assert s[0] in s;
    }
  }

  // ---------------------------------------------------------------------------
  // Suffixes, split and join
  // ---------------------------------------------------------------------------

  predicate StartsWith(s: string, prefix: string) {
    |prefix| <= |s| && s[..|prefix|] == prefix
  }

  predicate EndsWith(s: string, suffix: string) {
    |suffix| <= |s| && s[|s| - |suffix|..] == suffix
  }

  /** Array.prototype.join(sep). */
  function Join(parts: seq<string>, sep: char): string {
    if |parts| == 0 then ""
    else if |parts| == 1 then parts[0]
    else parts[0] + [sep] + Join(parts[1..], sep)
  }

  /** String.prototype.split(sep) for a one-character separator. */
  function Split(s: string, sep: char): (parts: seq<string>)
    ensures |parts| >= 1
    ensures forall i :: 0 <= i < |parts| ==> sep !in parts[i]
    ensures Join(parts, sep) == s
  {
    if s == [] then [""]
    else
      var rest := Split(s[1..], sep);
      if s[0] == sep then
        assert ([""] + rest)[1..] == rest;
        [""] + rest
      else
        var parts := [[s[0]] + rest[0]] + rest[1..];
        assert parts[1..] == rest[1..];
        assert s == [s[0]] + s[1..];
        parts
  }

  lemma {:induction false} SplitNoSeparator(p: string, sep: char)
    requires sep !in p
    ensures Split(p, sep) == [p]
  {
    if p != [] {
      SplitNoSeparator(p[1..], sep);
      assert p == [p[0]] + p[1..];
    }
  }

  lemma {:induction false} SplitAfterPart(p: string, t: string, sep: char)
    requires sep !in p
    ensures Split(p + [sep] + t, sep) == [p] + Split(t, sep)
  {
    var s := p + [sep] + t;
    if p == [] {
      assert s[1..] == t;
    } else {
      assert s[1..] == p[1..] + [sep] + t;
      SplitAfterPart(p[1..], t, sep);
      assert p == [p[0]] + p[1..];
    }
  }

  /** Splitting a join of separator-free parts gives the parts back. */
  lemma {:induction false} SplitJoin(parts: seq<string>, sep: char)
    requires |parts| >= 1
    requires forall i :: 0 <= i < |parts| ==> sep !in parts[i]
    ensures Split(Join(parts, sep), sep) == parts
  {
    if |parts| == 1 {
      SplitNoSeparator(parts[0], sep);
    } else {
      SplitJoin(parts[1..], sep);
      SplitAfterPart(parts[0], Join(parts[1..], sep), sep);
      assert parts == [parts[0]] + parts[1..];
    }
  }
}
