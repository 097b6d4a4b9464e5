/** Text helpers shared by the three filter engines: ASCII case folding,
    substring search, SQLite's LIKE operator, and the number syntax that
    Python's float() and int() accept (a documented subset of it). */
module Text {

  import opened Options

  // ---------------------------------------------------------------------
  // Case folding (SQLite's LOWER and LIKE fold ASCII letters only)
  // ---------------------------------------------------------------------

  function LowerChar(c: char): char {
    if 'A' <= c <= 'Z' then (c as int + 32) as char else c
  }

  function Lower(s: string): (r: string)
    ensures |r| == |s|
    ensures forall i :: 0 <= i < |s| ==> r[i] == LowerChar(s[i])
  {
    if s == [] then [] else [LowerChar(s[0])] + Lower(s[1..])
  }

  lemma LowerIdempotent(s: string)
    ensures Lower(Lower(s)) == Lower(s)
  {
  }

  // ---------------------------------------------------------------------
  // Substring search (Python's `in` on strings)
  // ---------------------------------------------------------------------

  /** `p` occurs somewhere inside `s`. */
  predicate Contains(s: string, p: string)
    decreases |s|
  {
    p <= s || (s != [] && Contains(s[1..], p))
  }

  /** `p` occurs in `s` starting at index `k`. */
  predicate OccursAt(s: string, p: string, k: int) {
    0 <= k <= |s| - |p| && s[k..k + |p|] == p
  }

  /** Contains, stated by position: the partner of the recursive search. */
  lemma {:induction false} ContainsAt(s: string, p: string)
    ensures Contains(s, p) <==> exists k :: OccursAt(s, p, k)
  {
    if s == [] {
      if p == [] {
        assert OccursAt(s, p, 0);
      }
    } else {
      ContainsAt(s[1..], p);
      if Contains(s[1..], p) {
        var k :| OccursAt(s[1..], p, k);
        assert s[k + 1..k + 1 + |p|] == s[1..][k..k + |p|];
        assert OccursAt(s, p, k + 1);
      }
      if p <= s {
        assert OccursAt(s, p, 0);
      }
      if k :| OccursAt(s, p, k) {
        if k > 0 {
          assert s[1..][k - 1..k - 1 + |p|] == s[k..k + |p|];
          assert OccursAt(s[1..], p, k - 1);
        }
      }
    }
  }

  // ---------------------------------------------------------------------
  // SQLite LIKE: '%' matches any run of characters, '_' any one
  // character, every other character matches itself up to ASCII case;
  // no ESCAPE clause is used by the callers.
  // ---------------------------------------------------------------------

  predicate Like(p: string, s: string)
    decreases |p| + |s|
  {
    if p == [] then s == []
    else if p[0] == '%' then Like(p[1..], s) || (s != [] && Like(p, s[1..]))
    else s != [] && (p[0] == '_' || LowerChar(p[0]) == LowerChar(s[0])) && Like(p[1..], s[1..])
  }

  /** The pattern holds neither of LIKE's wildcard characters. */
  predicate NoWildcards(v: string) {
    forall i :: 0 <= i < |v| ==> v[i] != '%' && v[i] != '_'
  }

  /** The pattern that the stores build from a filter value: "%value%". */
  function Surround(v: string): string {
    "%" + v + "%"
  }

  lemma {:induction false} LikeAnything(s: string)
    ensures Like("%", s)
  {
    if s != [] {
      LikeAnything(s[1..]);
    }
  }

  /** A wildcard-free `v` followed by '%' matches exactly the texts that
      begin with `v`, up to ASCII case. */
  lemma {:induction false} LikePrefix(v: string, s: string)
    requires NoWildcards(v)
    ensures Like(v + "%", s) <==> Lower(v) <= Lower(s)
    decreases |v|
  {
    if v == [] {
      assert v + "%" == "%";
      LikeAnything(s);
    } else {
      var p := v + "%";
      assert p[0] == v[0] && p[1..] == v[1..] + "%";
      if s != [] {
        LikePrefix(v[1..], s[1..]);
        assert Lower(v) == [LowerChar(v[0])] + Lower(v[1..]);
        assert Lower(s) == [LowerChar(s[0])] + Lower(s[1..]);
      }
    }
  }

  /** What the stores' "%value%" patterns mean: for a value without
      wildcards, LIKE is case-insensitive substring search. */
  lemma {:induction false} LikeIsContains(v: string, s: string)
    requires NoWildcards(v)
    ensures Like(Surround(v), s) <==> Contains(Lower(s), Lower(v))
    decreases |s|
  {
    var p := Surround(v);
    assert p[0] == '%' && p[1..] == v + "%";
    LikePrefix(v, s);
    if s != [] {
      LikeIsContains(v, s[1..]);
      assert Lower(s)[1..] == Lower(s[1..]);
    }
  }

  // ---------------------------------------------------------------------
  // Numbers: Python's int() and float() on a filter or form value.
  // Accepted syntax: an optional sign, decimal digits, and for float()
  // an optional fraction after a '.', with at least one digit overall.
  // ---------------------------------------------------------------------

  predicate IsDigit(c: char) {
    '0' <= c <= '9'
  }

  predicate AllDigits(s: string) {
    forall i :: 0 <= i < |s| ==> IsDigit(s[i])
  }

  function DigitValue(c: char): nat
    requires IsDigit(c)
  {
    c as int - '0' as int
  }

  /** The value of a string of decimal digits, most significant first. */
  function DigitsValue(s: string): nat
    requires AllDigits(s)
  {
    if s == [] then 0 else 10 * DigitsValue(s[..|s| - 1]) + DigitValue(s[|s| - 1])
  }

  /** The value of the digits after the point: "25" stands for 0.25. */
  function FractionValue(s: string): real
    requires AllDigits(s)
  {
    if s == [] then 0.0 else (DigitValue(s[0]) as real + FractionValue(s[1..])) / 10.0
  }

  /** Index of the first '.', or |s| when there is none. */
  function DotIndex(s: string): (k: nat)
    ensures k <= |s|
    ensures k < |s| ==> s[k] == '.'
    ensures forall i :: 0 <= i < k ==> s[i] != '.'
  {
    if s == [] then 0
    else if s[0] == '.' then 0
    else 1 + DotIndex(s[1..])
  }

  function ParseUnsignedInt(s: string): Option<int> {
    if s != [] && AllDigits(s) then Some(DigitsValue(s)) else None
  }

  function ParseUnsignedFloat(s: string): Option<real> {
    var k := DotIndex(s);
    var whole := s[..k];
    var frac := if k < |s| then s[k + 1..] else [];
    if AllDigits(whole) && AllDigits(frac) && |whole| + |frac| > 0 then
      Some(DigitsValue(whole) as real + FractionValue(frac))
    else None
  }

  /** Python's int(value), on the syntax described above. */
  function ParseInt(s: string): Option<int> {
    if s != [] && s[0] == '-' then
      match ParseUnsignedInt(s[1..]) case Some(n) => Some(-n) case None => None
    else if s != [] && s[0] == '+' then ParseUnsignedInt(s[1..])
    else ParseUnsignedInt(s)
  }

  /** Python's float(value), on the syntax described above. */
  function ParseFloat(s: string): Option<real> {
    if s != [] && s[0] == '-' then
      match ParseUnsignedFloat(s[1..]) case Some(x) => Some(-x) case None => None
    else if s != [] && s[0] == '+' then ParseUnsignedFloat(s[1..])
    else ParseUnsignedFloat(s)
  }

  function DigitChar(d: nat): (c: char)
    requires d < 10
    ensures IsDigit(c) && DigitValue(c) == d
  {
    ('0' as int + d) as char
  }

  /** Decimal text of a natural number, as Python's str() and SQLite's
      INTEGER-to-TEXT conversion both write it. */
  function ShowNat(n: nat): (s: string)
    ensures s != [] && AllDigits(s)
  {
    if n < 10 then [DigitChar(n)] else ShowNat(n / 10) + [DigitChar(n % 10)]
  }

  function ShowInt(n: int): string {
    if n < 0 then "-" + ShowNat(-n) else ShowNat(n)
  }

  lemma {:induction false} ShowNatValue(n: nat)
    ensures DigitsValue(ShowNat(n)) == n
  {
    if n >= 10 {
      ShowNatValue(n / 10);
      var s := ShowNat(n);
      assert s[..|s| - 1] == ShowNat(n / 10);
    }
  }

  /** float(str(n)) == n for a natural number. */
  lemma ParseShowNat(n: nat)
    ensures ParseFloat(ShowNat(n)) == Some(n as real)
  {
    ParseFloatWhole(ShowNat(n));
    ShowNatValue(n);
  }

  /** int(str(n)) == n: the id column's text reads back as the same id. */
  lemma ParseShowInt(n: int)
    ensures ParseInt(ShowInt(n)) == Some(n)
  {
    var s := ShowInt(n);
    if n < 0 {
      ShowNatValue(-n);
      assert s[0] == '-' && s[1..] == ShowNat(-n);
      assert ParseUnsignedInt(s[1..]) == Some(-n);
    } else {
      ShowNatValue(n);
      assert IsDigit(s[0]);
      assert ParseUnsignedInt(s) == Some(n);
    }
  }

  /** A string of digits reads back through float() as its integer value. */
  lemma ParseFloatWhole(s: string)
    requires s != [] && AllDigits(s)
    ensures ParseFloat(s) == Some(DigitsValue(s) as real)
  {
    DotIndexAbsent(s);
    assert s[0] != '-' && s[0] != '+';
    UnsignedFloatOf(s, s, [], DigitsValue(s) as real);
  }

  /** `ParseUnsignedFloat` on a text whose whole and fractional digit
      parts are known. */
  lemma UnsignedFloatOf(s: string, whole: string, frac: string, x: real)
    requires AllDigits(whole) && AllDigits(frac) && |whole| + |frac| > 0
    requires DotIndex(s) == |whole| && s[..|whole|] == whole
    requires frac == if |whole| < |s| then s[|whole| + 1..] else []
    requires x == DigitsValue(whole) as real + FractionValue(frac)
    ensures ParseUnsignedFloat(s) == Some(x)
  {
  }

  /** "125" and "125.0" denote the same measurement. */
  lemma ParseFloatPointZero(s: string)
    requires s != [] && AllDigits(s)
    ensures ParseFloat(s + ".0") == Some(DigitsValue(s) as real)
  {
    var t := s + ".0";
    DotIndexAbsent(s);
    DotIndexAfter(s, ".0");
    assert DotIndex(t) == |s|;
    assert t[0] == s[0] && t[0] != '-' && t[0] != '+';
    assert t[..|s|] == s;
    assert t[|s| + 1..] == "0";
    assert FractionValue("0") == 0.0;
    UnsignedFloatOf(t, s, "0", DigitsValue(s) as real);
  }

  lemma {:induction false} DotIndexAbsent(s: string)
    requires AllDigits(s)
    ensures DotIndex(s) == |s|
  {
    if s != [] {
      DotIndexAbsent(s[1..]);
    }
  }

  lemma {:induction false} DotIndexAfter(s: string, t: string)
    requires AllDigits(s)
    ensures DotIndex(s + t) == |s| + DotIndex(t)
  {
    if s != [] {
      assert (s + t)[1..] == s[1..] + t;
      DotIndexAfter(s[1..], t);
    } else {
      assert s + t == t;
    }
  }
}
