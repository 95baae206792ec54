/** Cell values of a supplier table and the operations pandas applies to them:
    numeric comparison, stringification (`astype(str)`), case-insensitive substring
    search and the ordering used by `sort_values`. */
module Values {

  datatype Option<+T> = None | Some(value: T)

  /** One cell. `Missing` is pandas' NaN / None. Numbers are modelled as integers. */
  datatype Value = Num(n: int) | Bool(b: bool) | Str(s: string) | Missing

  /** The number a cell compares as: pandas compares booleans as 0 and 1,
      and a missing (or string) cell has no number, so every comparison with it is false. */
  function AsNumber(v: Value): Option<int>
  {
    match v
    case Num(n) => Some(n)
    case Bool(b) => Some(if b then 1 else 0)
    case _ => None
  }

  function DigitChar(d: nat): char
    requires d < 10
  {
    "0123456789"[d]
  }

  predicate IsDigits(s: string)
  {
    |s| > 0 && forall i :: 0 <= i < |s| ==> '0' <= s[i] <= '9'
  }

  /** The number a string of decimal digits denotes. */
  function DigitsValue(s: string): int
    decreases |s|
  {
    if s == [] then 0 else 10 * DigitsValue(s[..|s| - 1]) + (s[|s| - 1] as int - '0' as int)
  }

  /** Python's `int()` of a decimal literal with an optional minus sign; anything else reads as no number. */
  function ParseInt(s: string): Option<int>
  {
    if |s| > 1 && s[0] == '-' && IsDigits(s[1..]) then Some(-DigitsValue(s[1..]))
    else if IsDigits(s) then Some(DigitsValue(s))
    else None
  }

  /** Digits without a leading zero, except for the single digit "0" itself. */
  predicate CanonicalDigits(d: string)
  {
    IsDigits(d) && (d[0] == '0' ==> d == "0")
  }

  /** The literal Python's `str()` prints for an integer: canonical digits, with a minus sign
      exactly for a negative number (so never "-0"). */
  predicate Canonical(s: string)
  {
    if |s| > 0 && s[0] == '-' then CanonicalDigits(s[1..]) && s[1..] != "0"
    else CanonicalDigits(s)
  }

  /** Decimal digits of a natural number, most significant first. */
  function NatToString(n: nat): (s: string)
    ensures IsDigits(s) && DigitsValue(s) == n
    ensures CanonicalDigits(s)
    ensures s[0] == '0' <==> n == 0
    decreases n
  {
    if n < 10 then
      assert DigitChar(n) as int - '0' as int == n;
      [DigitChar(n)]
    else
      var p := NatToString(n / 10);
      var s := p + [DigitChar(n % 10)];
      assert s[..|s| - 1] == p;
      assert s[0] == p[0];
      assert DigitChar(n % 10) as int - '0' as int == n % 10;
      s
  }

  /** Python's `str()` of an integer: the canonical literal, which reads back as the same integer. */
  function IntToString(i: int): (s: string)
    ensures ParseInt(s) == Some(i)
    ensures Canonical(s)
    ensures s[0] == '-' <==> i < 0
  {
    if i < 0 then
      var d := NatToString(-i);
      assert ("-" + d)[1..] == d;
      "-" + d
    else NatToString(i)
  }

  /** A digit string that does not start with zero denotes a positive number. */
  lemma {:induction false} LeadingDigitPositive(d: string)
    requires IsDigits(d) && d[0] != '0'
    ensures DigitsValue(d) >= 1
    decreases |d|
  {
    if |d| > 1 {
      var p := d[..|d| - 1];
      assert p[0] == d[0];
      LeadingDigitPositive(p);
    }
  }

  /** Canonical digits are the only spelling of their number. */
  lemma {:induction false} CanonicalDigitsUnique(d: string)
    requires CanonicalDigits(d)
    ensures DigitsValue(d) >= 0 && d == NatToString(DigitsValue(d))
    decreases |d|
  {
    if |d| == 1 {
      SingleDigitUnique(d);
    } else {
      var p := d[..|d| - 1];
      assert p[0] == d[0] && d[0] != '0';
      LeadingDigitPositive(p);
      CanonicalDigitsUnique(p);
      AppendDigitUnique(p, d[|d| - 1]);
      SplitLast(d);
    }
  }

  lemma SingleDigitUnique(d: string)
    requires IsDigits(d) && |d| == 1
    ensures DigitsValue(d) >= 0 && d == NatToString(DigitsValue(d))
  {
    var r := d[0] as int - '0' as int;
    assert d[..0] == [];
    assert DigitsValue(d) == r && DigitChar(r) == d[0];
    assert d == [d[0]];
  }

  lemma SplitLast(d: string)
    requires |d| > 0
    ensures d == d[..|d| - 1] + [d[|d| - 1]]
  {
  }

  /** Appending a digit to the canonical spelling of a positive number spells the new number. */
  lemma AppendDigitUnique(p: string, c: char)
    requires '0' <= c <= '9' && IsDigits(p)
    requires DigitsValue(p) >= 1 && p == NatToString(DigitsValue(p))
    ensures DigitsValue(p + [c]) >= 0 && p + [c] == NatToString(DigitsValue(p + [c]))
  {
    var d := p + [c];
    var r := c as int - '0' as int;
    assert 0 <= r < 10 && DigitChar(r) == c;
    assert d[..|d| - 1] == p;
    assert DigitsValue(d) == 10 * DigitsValue(p) + r;
    NatToStringStep(DigitsValue(p), r);
  }

  /** The digits of `10 * m + r` are those of `m` followed by the digit `r`. */
  lemma NatToStringStep(m: nat, r: nat)
    requires 1 <= m && r < 10
    ensures NatToString(10 * m + r) == NatToString(m) + [DigitChar(r)]
  {
    LastDigit(m, r);
  }

  /** Splitting off the last decimal digit of `10 * m + r`. */
  lemma LastDigit(m: nat, r: nat)
    requires r < 10
    ensures (10 * m + r) / 10 == m && (10 * m + r) % 10 == r
  {
  }

  /** Two integers never share a literal, and each integer has exactly one canonical literal:
      any canonical text that reads as `i` is `str(i)`. */
  lemma CanonicalUnique(s: string, i: int)
    requires Canonical(s) && ParseInt(s) == Some(i)
    ensures s == IntToString(i)
  {
    if |s| > 0 && s[0] == '-' {
      var d := s[1..];
      CanonicalDigitsUnique(d);
      assert d[0] != '0';
      LeadingDigitPositive(d);
      assert s == "-" + d;
    } else {
      CanonicalDigitsUnique(s);
    }
  }

  /** Python's `str()` of a cell, as `Series.astype(str)` produces it: a number prints as its
      decimal literal, a string as itself, a boolean as `True`/`False`, and a missing cell
      becomes the text "nan". */
  function Stringify(v: Value): (s: string)
    ensures v.Num? ==> ParseInt(s) == Some(v.n) && Canonical(s)
    ensures v.Bool? || v.Missing? ==> ParseInt(s) == None
    ensures v.Str? ==> s == v.s
    ensures v.Bool? ==> s == if v.b then "True" else "False"
    ensures v.Missing? ==> s == "nan"
  {
    match v
    case Num(n) => IntToString(n)
    case Bool(b) =>
      assert "True"[0] == 'T' && "False"[0] == 'F';
      if b then "True" else "False"
    case Str(s) => s
    case Missing =>
      assert "nan"[0] == 'n';
      "nan"
  }

  function LowerChar(c: char): char
  {
    if 'A' <= c <= 'Z' then (c as int + 32) as char else c
  }

  /** ASCII lower-casing, the case folding of a case-insensitive search. */
  function Lower(s: string): (r: string)
    ensures |r| == |s|
    ensures forall i :: 0 <= i < |s| ==> r[i] == LowerChar(s[i])
  {
    if s == [] then [] else [LowerChar(s[0])] + Lower(s[1..])
  }

  predicate IsPrefix(p: string, s: string)
  {
    |p| <= |s| && s[..|p|] == p
  }

  /** Substring test, written as the scan a search performs. */
  predicate Contains(s: string, sub: string)
    decreases |s|
  {
    IsPrefix(sub, s) || (|s| > 0 && Contains(s[1..], sub))
  }

  /** `sub` occurs in `s` starting at position `i`. */
  predicate OccursAt(s: string, sub: string, i: int)
  {
    0 <= i && i + |sub| <= |s| && s[i..i + |sub|] == sub
  }

  /** `Contains` holds exactly when `sub` occurs at some position of `s`. */
  lemma {:induction false} ContainsAt(s: string, sub: string)
    ensures Contains(s, sub) <==> exists i :: OccursAt(s, sub, i)
    decreases |s|
  {
    if IsPrefix(sub, s) {
      assert OccursAt(s, sub, 0);
    } else if |s| == 0 {
      forall i ensures !OccursAt(s, sub, i) {
      }
    } else {
      ContainsAt(s[1..], sub);
      if exists i :: OccursAt(s, sub, i) {
        var i :| OccursAt(s, sub, i);
        assert i > 0;
        assert s[1..][i - 1..i - 1 + |sub|] == s[i..i + |sub|];
        assert OccursAt(s[1..], sub, i - 1);
      }
      if Contains(s[1..], sub) {
        var i :| OccursAt(s[1..], sub, i);
        assert s[1..][i..i + |sub|] == s[i + 1..i + 1 + |sub|];
        assert OccursAt(s, sub, i + 1);
      }
    }
  }

  /** Case-insensitive search of `search` in the stringified cell, the mask of
      `astype(str).str.contains(search, case=False)` (plain substring matching). */
  predicate TextMatches(v: Value, search: string)
    ensures search == "" ==> TextMatches(v, search)
  {
    Contains(Lower(Stringify(v)), Lower(search))
  }

  /** `sub` occurs at some position of `s`. */
  predicate OccursIn(s: string, sub: string)
  {
    exists i :: 0 <= i <= |s| && OccursAt(s, sub, i)
  }

  /** A cell matches exactly when the lower-cased search occurs at some position of the
      lower-cased text of the cell. */
  lemma TextMatchesAt(v: Value, search: string)
    ensures TextMatches(v, search) <==> OccursIn(Lower(Stringify(v)), Lower(search))
  {
    ContainsAt(Lower(Stringify(v)), Lower(search));
  }

  /** The search ignores case on both sides: lower-casing the search text, or a string cell,
      does not change which cells match. */
  lemma TextMatchesIgnoresCase(v: Value, search: string)
    ensures TextMatches(v, search) <==> TextMatches(v, Lower(search))
    ensures v.Str? ==> (TextMatches(v, search) <==> TextMatches(Str(Lower(v.s)), search))
  {
    LowerIdempotent(search);
    if v.Str? {
      LowerIdempotent(v.s);
    }
  }

  /** Lower-casing twice is lower-casing once. */
  lemma LowerIdempotent(s: string)
    ensures Lower(Lower(s)) == Lower(s)
  {
    assert forall i :: 0 <= i < |s| ==> LowerChar(LowerChar(s[i])) == LowerChar(s[i]);
  }

  /** Python's ordering of strings: lexicographic by code point. Two strings tie exactly
      when they are equal. */
  function StrCmp(a: string, b: string): (c: int)
    ensures -1 <= c <= 1
    ensures c == 0 <==> a == b
  {
    if a == [] then (if b == [] then 0 else -1)
    else if b == [] then 1
    else if a[0] < b[0] then -1
    else if a[0] > b[0] then 1
    else
      assert a == [a[0]] + a[1..] && b == [b[0]] + b[1..];
      StrCmp(a[1..], b[1..])
  }

  /** Lexicographic order spelled out: `a` is a proper prefix of `b`, or at the first position
      where they differ `a` has the smaller character. */
  predicate LexBefore(a: string, b: string)
  {
    (|a| < |b| && a == b[..|a|]) ||
    exists k :: 0 <= k < |a| && k < |b| && a[..k] == b[..k] && a[k] < b[k]
  }

  lemma {:induction false} StrCmpLexicographic(a: string, b: string)
    ensures StrCmp(a, b) < 0 <==> LexBefore(a, b)
    decreases |a|
  {
    if a == [] || b == [] {
    } else if a[0] < b[0] {
      assert a[..0] == b[..0];
    } else if a[0] > b[0] {
      forall k | 0 <= k < |a| && k < |b| && a[..k] == b[..k] ensures !(a[k] < b[k]) {
      }
    } else {
      var a', b' := a[1..], b[1..];
      StrCmpLexicographic(a', b');
      if LexBefore(a', b') {
        if |a'| < |b'| && a' == b'[..|a'|] {
          assert a == [a[0]] + a' && b[..|a|] == [b[0]] + b'[..|a'|];
        } else {
          var k :| 0 <= k < |a'| && k < |b'| && a'[..k] == b'[..k] && a'[k] < b'[k];
          assert a[..k + 1] == [a[0]] + a'[..k] && b[..k + 1] == [b[0]] + b'[..k];
          assert a[k + 1] == a'[k] && b[k + 1] == b'[k];
        }
      }
      if LexBefore(a, b) {
        if |a| < |b| && a == b[..|a|] {
          assert a' == b'[..|a'|];
        } else {
          var k :| 0 <= k < |a| && k < |b| && a[..k] == b[..k] && a[k] < b[k];
          assert k > 0;
          assert a'[..k - 1] == a[..k][1..] && b'[..k - 1] == b[..k][1..];
          assert a'[k - 1] == a[k] && b'[k - 1] == b[k];
        }
      }
    }
  }

  lemma {:induction false} StrCmpAntisymmetric(a: string, b: string)
    ensures StrCmp(a, b) == -StrCmp(b, a)
  {
    if a != [] && b != [] && a[0] == b[0] {
      StrCmpAntisymmetric(a[1..], b[1..]);
    }
  }


  lemma {:induction false} StrCmpTransitive(a: string, b: string, c: string)
    requires StrCmp(a, b) <= 0 && StrCmp(b, c) <= 0
    ensures StrCmp(a, c) <= 0
  {
    if a != [] && b != [] && c != [] && a[0] == b[0] && b[0] == c[0] {
      StrCmpTransitive(a[1..], b[1..], c[1..]);
    }
  }

  /** Position of a value's kind in the sort order: numbers and booleans, then strings,
      then missing cells. */
  function KindRank(v: Value): nat
  {
    match v
    case Num(_) => 0
    case Bool(_) => 0
    case Str(_) => 1
    case Missing => 2
  }

  function IntCmp(x: int, y: int): int
  {
    if x < y then -1 else if x > y then 1 else 0
  }

  /** Three-way comparison of two cells in ascending order; a missing cell sorts after everything. */
  function ValueCmp(a: Value, b: Value): (c: int)
    ensures -1 <= c <= 1
    ensures c == 0 ==> KindRank(a) == KindRank(b)
    ensures KindRank(a) != KindRank(b) ==> (c < 0 <==> KindRank(a) < KindRank(b))
    ensures a.Missing? && !b.Missing? ==> c == 1
    ensures a.Str? && b.Str? ==> (c == 0 <==> a == b)
  {
    if KindRank(a) != KindRank(b) then (if KindRank(a) < KindRank(b) then -1 else 1)
    else match a
      case Str(s) => StrCmp(s, b.s)
      case Missing => 0
      case _ => IntCmp(AsNumber(a).value, AsNumber(b).value)
  }

  lemma ValueCmpAntisymmetric(a: Value, b: Value)
    ensures ValueCmp(a, b) == -ValueCmp(b, a)
  {
    if a.Str? && b.Str? {
      StrCmpAntisymmetric(a.s, b.s);
    }
  }

  lemma ValueCmpTransitive(a: Value, b: Value, c: Value)
    requires ValueCmp(a, b) <= 0 && ValueCmp(b, c) <= 0
    ensures ValueCmp(a, c) <= 0
  {
    if a.Str? && b.Str? && c.Str? {
      StrCmpTransitive(a.s, b.s, c.s);
    }
  }

  /** Numbers (and booleans) compare by their numeric value. */
  lemma ValueCmpNumbers(a: Value, b: Value)
    requires AsNumber(a).Some? && AsNumber(b).Some?
    ensures ValueCmp(a, b) <= 0 <==> AsNumber(a).value <= AsNumber(b).value
  {
  }
}
