/** Text operations the scripts get from Python and pandas: the ordering of
    `str` values (used by `sorted` and `sort_values` on text columns), the
    sorted list of distinct values (`sorted(series.unique())`), and decimal
    integers as `pd.to_numeric` reads them and `to_csv` writes them. */
module Text {
  import opened Results

  /** Python's `a <= b` on `str`: code point by code point, and a proper
      prefix before the longer string. */
  predicate StrLe(a: string, b: string)
    ensures |a| <= |b| && a == b[..|a|] ==> StrLe(a, b)
  {
    if a == [] then true
    else if b == [] then false
    else if a[0] != b[0] then a[0] < b[0]
    else StrLe(a[1..], b[1..])
  }

  predicate StrLt(a: string, b: string) {
    StrLe(a, b) && a != b
  }

  predicate StrictlyAscending(s: seq<string>) {
    forall i, j :: 0 <= i < j < |s| ==> StrLt(s[i], s[j])
  }

  lemma {:induction false} StrLeTotal(a: string, b: string)
    ensures StrLe(a, b) || StrLe(b, a)
  {
    if a != [] && b != [] && a[0] == b[0] {
      StrLeTotal(a[1..], b[1..]);
    }
  }

  lemma {:induction false} StrLeTransitive(a: string, b: string, c: string)
    requires StrLe(a, b) && StrLe(b, c)
    ensures StrLe(a, c)
  {
    if a != [] && b != [] && c != [] && a[0] == b[0] && b[0] == c[0] {
      StrLeTransitive(a[1..], b[1..], c[1..]);
    }
  }

  lemma {:induction false} StrLeAntisymmetric(a: string, b: string)
    requires StrLe(a, b) && StrLe(b, a)
    ensures a == b
  {
    if a != [] && b != [] {
      StrLeAntisymmetric(a[1..], b[1..]);
      assert a == [a[0]] + a[1..] && b == [b[0]] + b[1..];
    }
  }

  /** Inserts `x` into a strictly ascending list unless it is already there. */
  function InsertUnique(s: seq<string>, x: string): (r: seq<string>)
    requires StrictlyAscending(s)
    ensures StrictlyAscending(r)
    ensures forall v :: v in r <==> v in s || v == x
  {
    if s == [] then [x]
    else
      var last := s[|s| - 1];
      if last == x then s
      else if StrLe(last, x) then
        assert forall v :: v in s ==> StrLt(v, x) by {
          forall v | v in s ensures StrLt(v, x) {
            if v != last { StrLeTransitive(v, last, x); }
            if v == x { StrLeAntisymmetric(last, x); }
          }
        }
        s + [x]
      else
        StrLeTotal(last, x);
        var q := InsertUnique(s[..|s| - 1], x);
        assert forall i :: 0 <= i < |q| ==> StrLt(q[i], last) by {
          forall i | 0 <= i < |q| ensures StrLt(q[i], last) {
            assert q[i] in q;
          }
        }
        q + [last]
  }

  /** `sorted(values.unique())`: the distinct values in ascending order. */
  function SortedUnique(values: seq<string>): (r: seq<string>)
    ensures StrictlyAscending(r)
    ensures forall v :: v in r <==> v in values
  {
    if values == [] then []
    else InsertUnique(SortedUnique(values[..|values| - 1]), values[|values| - 1])
  }

  /** Two strictly ascending lists with the same elements are equal, so the
      option lists are determined by the set of values alone. */
  lemma {:induction false} StrictlyAscendingUnique(r: seq<string>, s: seq<string>)
    requires StrictlyAscending(r) && StrictlyAscending(s)
    requires forall v :: v in r <==> v in s
    ensures r == s
  {
    if r != [] { assert r[0] in r; }
    if s != [] { assert s[0] in s; }
    if r != [] && s != [] {
      var a, b := r[|r| - 1], s[|s| - 1];
      if a != b {
        assert a in s;
        assert b in r;
        StrLeAntisymmetric(a, b);
      }
      var r', s' := r[..|r| - 1], s[..|s| - 1];
      forall v ensures v in r' <==> v in s' {
        if v in r' { assert v in s; }
        if v in s' { assert v in r; }
      }
      StrictlyAscendingUnique(r', s');
      assert r == r' + [a] && s == s' + [b];
    }
  }

  // ---------------------------------------------------------------------------
  // Decimal integers

  predicate IsDigit(c: char) {
    '0' <= c <= '9'
  }

  predicate AllDigits(s: string) {
    forall i :: 0 <= i < |s| ==> IsDigit(s[i])
  }

  function DigitValue(c: char): nat
    requires IsDigit(c)
  {
    c as int - '0' as int
  }

  function DigitChar(d: nat): (c: char)
    requires d < 10
    ensures IsDigit(c) && DigitValue(c) == d
  {
    ('0' as int + d) as char
  }

  function DigitsValue(s: string): nat
    requires AllDigits(s)
  {
    if s == [] then 0 else 10 * DigitsValue(s[..|s| - 1]) + DigitValue(s[|s| - 1])
  }

  /** The decimal text of a natural number, without leading zeros. */
  function FormatNat(n: nat): (s: string)
    ensures s != [] && AllDigits(s) && DigitsValue(s) == n
    ensures n > 0 ==> s[0] != '0'
  {
    if n < 10 then [DigitChar(n)]
    else
      var s := FormatNat(n / 10) + [DigitChar(n % 10)];
      assert s[..|s| - 1] == FormatNat(n / 10);
      s
  }

  /** An optionally signed run of decimal digits. */
  predicate IsIntegerText(s: string) {
    if s != [] && (s[0] == '-' || s[0] == '+') then s[1..] != [] && AllDigits(s[1..])
    else s != [] && AllDigits(s)
  }

  /** `pd.to_numeric` on one text cell, restricted to integers: the value of
      an optionally signed decimal, or nothing. */
  function ParseInt(s: string): (r: Option<int>)
    ensures r.Some? <==> IsIntegerText(s)
  {
    if s != [] && s[0] == '-' then
      if s[1..] != [] && AllDigits(s[1..]) then Some(-(DigitsValue(s[1..]) as int)) else None
    else if s != [] && s[0] == '+' then
      if s[1..] != [] && AllDigits(s[1..]) then Some(DigitsValue(s[1..])) else None
    else if s != [] && AllDigits(s) then Some(DigitsValue(s))
    else None
  }

  /** How `to_csv` writes an integer cell. */
  function FormatInt(n: int): string {
    if n < 0 then "-" + FormatNat(-n) else FormatNat(n)
  }

  /** Reading back a written integer gives the same integer. */
  lemma ParseFormatRoundTrip(n: int)
    ensures ParseInt(FormatInt(n)) == Some(n)
  {
    if n < 0 {
      assert FormatInt(n)[1..] == FormatNat(-n);
    }
  }

  // ---------------------------------------------------------------------------
  // Text order of digit strings

  /** A common prefix does not affect the comparison. */
  lemma {:induction false} StrLeCommonPrefix(x: string, u: string, v: string)
    ensures StrLe(x + u, x + v) == StrLe(u, v)
  {
    if x != [] {
      assert (x + u)[1..] == x[1..] + u;
      assert (x + v)[1..] == x[1..] + v;
      StrLeCommonPrefix(x[1..], u, v);
    } else {
      assert x + u == u && x + v == v;
    }
  }

  /** Two different texts of the same length decide the comparison of any
      continuations of them. */
  lemma {:induction false} StrLeDifferentPrefix(x: string, y: string, u: string, v: string)
    requires |x| == |y| && x != y
    ensures StrLe(x + u, y + v) == StrLe(x, y)
  {
    if x[0] == y[0] {
      assert x == [x[0]] + x[1..] && y == [y[0]] + y[1..];
      assert x[1..] != y[1..];
      assert (x + u)[1..] == x[1..] + u;
      assert (y + v)[1..] == y[1..] + v;
      StrLeDifferentPrefix(x[1..], y[1..], u, v);
    }
  }

  function Pow10(n: nat): (p: nat)
    ensures p >= 1
  {
    if n == 0 then 1 else 10 * Pow10(n - 1)
  }

  lemma {:induction false} DigitsValueBound(s: string)
    requires AllDigits(s)
    ensures DigitsValue(s) < Pow10(|s|)
  {
    if s != [] {
      DigitsValueBound(s[..|s| - 1]);
    }
  }

  /** The value of a digit string read from its first digit. */
  lemma {:induction false} DigitsValueFront(s: string)
    requires AllDigits(s) && s != []
    ensures DigitsValue(s) == DigitValue(s[0]) * Pow10(|s| - 1) + DigitsValue(s[1..])
  {
    var n := |s|;
    if n == 1 {
      assert s[..0] == [] && s[1..] == [];
    } else {
      var init := s[..n - 1];
      DigitsValueFront(init);
      assert init[1..] == s[1..][..n - 2];
      assert DigitsValue(s[1..]) == 10 * DigitsValue(init[1..]) + DigitValue(s[n - 1]);
      ShiftDigit(DigitValue(s[0]), Pow10(n - 2), DigitsValue(init[1..]), DigitValue(s[n - 1]));
    }
  }

  lemma ShiftDigit(d: nat, p: nat, rest: nat, last: nat)
    ensures 10 * (d * p + rest) + last == d * (10 * p) + (10 * rest + last)
  {
  }

  /** A smaller leading digit means a smaller number, whatever follows. */
  lemma LeadingDigitDecides(dx: nat, dy: nat, p: nat, rx: nat, ry: nat)
    requires dx < dy && rx < p && ry < p
    ensures dx * p + rx < dy * p + ry
  {
    MulMonotone(dx + 1, dy, p);
    assert (dx + 1) * p == dx * p + p;
  }

  lemma {:induction false} MulMonotone(a: nat, b: nat, p: nat)
    requires a <= b
    ensures a * p <= b * p
    decreases b - a
  {
    if a < b {
      MulMonotone(a, b - 1, p);
      assert b * p == (b - 1) * p + p;
    }
  }

  /** For digit strings of one length, text order is numeric order. */
  lemma {:induction false} DigitsOrder(x: string, y: string)
    requires AllDigits(x) && AllDigits(y) && |x| == |y|
    ensures StrLe(x, y) <==> DigitsValue(x) <= DigitsValue(y)
  {
    if x != [] {
      DigitsValueFront(x);
      DigitsValueFront(y);
      var p := Pow10(|x| - 1);
      DigitsValueBound(x[1..]);
      DigitsValueBound(y[1..]);
      var dx, dy := DigitValue(x[0]), DigitValue(y[0]);
      if x[0] == y[0] {
        DigitsOrder(x[1..], y[1..]);
      } else if dx < dy {
        LeadingDigitDecides(dx, dy, p, DigitsValue(x[1..]), DigitsValue(y[1..]));
      } else {
        LeadingDigitDecides(dy, dx, p, DigitsValue(y[1..]), DigitsValue(x[1..]));
      }
    }
  }
}
