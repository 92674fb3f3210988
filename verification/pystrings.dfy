/** The few Python `str` operations the scraper relies on, restricted to ASCII:
`lower`, `upper`, `isnumeric`, `strip`, `split(sep)`, `sep.join`,
`replace`, slicing with negative bounds, `str(n)` for a natural number and
`int(s)` for a decimal string.
 */
module PyStrings {
  import opened Results

  // ---------------------------------------------------------------------------
  // Characters

  predicate IsUpper(c: char) {
    'A' <= c <= 'Z'
  }

  predicate IsLower(c: char) {
    'a' <= c <= 'z'
  }

  /** `str.isnumeric` on one ASCII character. */
  predicate IsDigit(c: char) {
    '0' <= c <= '9'
  }

  /** The characters `str.strip()` and `int()` treat as white space,
      restricted to ASCII: the space, `\t` to `\r`, and the four information
      separators `\x1c` to `\x1f`. */
  predicate IsSpace(c: char) {
    c == ' ' || '\t' <= c <= '\r' || '\U{1c}' <= c <= '\U{1f}'
  }

  function LowerChar(c: char): (d: char)
    ensures !IsUpper(d)
    ensures IsUpper(c) ==> IsLower(d) && d as int == c as int + 32
    ensures !IsUpper(c) ==> d == c
  {
    if IsUpper(c) then (c as int + 32) as char else c
  }

  function UpperChar(c: char): (d: char)
    ensures !IsLower(d)
    ensures IsLower(c) ==> IsUpper(d) && d as int == c as int - 32
    ensures !IsLower(c) ==> d == c
  {
    if IsLower(c) then (c as int - 32) as char else c
  }

  /** `s.lower()` */
  function Lower(s: string): (r: string)
    ensures |r| == |s|
    ensures forall i :: 0 <= i < |s| ==> r[i] == LowerChar(s[i])
  {
    seq(|s|, i requires 0 <= i < |s| => LowerChar(s[i]))
  }

  /** `s.upper()` */
  function Upper(s: string): (r: string)
    ensures |r| == |s|
    ensures forall i :: 0 <= i < |s| ==> r[i] == UpperChar(s[i])
  {
    seq(|s|, i requires 0 <= i < |s| => UpperChar(s[i]))
  }

  // ---------------------------------------------------------------------------
  // split and join

  /** `s.split(d)` with an explicit one-character separator: every separator
      ends a part, so `k` separators give `k + 1` parts (possibly empty). */
  function Split(s: string, d: char): (parts: seq<string>)
    ensures |parts| >= 1
    ensures forall k :: 0 <= k < |parts| ==> d !in parts[k]
    decreases |s|
  {
    if |s| == 0 then [""]
    else if s[0] == d then [""] + Split(s[1..], d)
    else
      var rest := Split(s[1..], d);
      [[s[0]] + rest[0]] + rest[1..]
  }

  /** A leading character other than the separator joins the first part. */
  lemma SplitNonSeparator(c: string, d: char)
    requires |c| > 0 && c[0] != d
    ensures Split(c, d) == [[c[0]] + Split(c[1..], d)[0]] + Split(c[1..], d)[1..]
  {
  }

  /** `sep.join(parts)` */
  function Join(sep: string, parts: seq<string>): string
    decreases |parts|
  {
    if |parts| == 0 then ""
    else if |parts| == 1 then parts[0]
    else parts[0] + sep + Join(sep, parts[1..])
  }

  /** Putting a character in front of the first part puts it in front of the join. */
  lemma JoinConsHead(sep: string, c: char, p: string, ps: seq<string>)
    ensures Join(sep, [[c] + p] + ps) == [c] + Join(sep, [p] + ps)
  {
    assert ([[c] + p] + ps)[1..] == ps;
    assert ([p] + ps)[1..] == ps;
  }

  /** Splitting on a character and joining back with it gives the input back. */
  lemma {:induction false} SplitJoin(s: string, d: char)
    ensures Join([d], Split(s, d)) == s
    decreases |s|
  {
    if |s| == 0 {
    } else if s[0] == d {
      var rest := Split(s[1..], d);
      SplitJoin(s[1..], d);
      assert ([""] + rest)[1..] == rest;
      assert s == [d] + s[1..];
    } else {
      var rest := Split(s[1..], d);
      SplitJoin(s[1..], d);
      JoinConsHead([d], s[0], rest[0], rest[1..]);
      assert [rest[0]] + rest[1..] == rest;
      assert s == [s[0]] + s[1..];
    }
  }

  // ---------------------------------------------------------------------------
  // replace

  /** `s.startswith(p)` */
  predicate StartsWith(s: string, p: string) {
    |p| <= |s| && s[..|p|] == p
  }

  /** `s.replace(pat, rep)`: every non-overlapping occurrence of `pat`,
      scanning left to right, is replaced by `rep`. */
  function Replace(s: string, pat: string, rep: string): string
    requires |pat| > 0
    decreases |s|
  {
    if |s| < |pat| then s
    else if StartsWith(s, pat) then rep + Replace(s[|pat|..], pat, rep)
    else [s[0]] + Replace(s[1..], pat, rep)
  }

  /** No character `a` of `s` is immediately followed by a character `b`. */
  predicate NoPair(s: string, a: char, b: char) {
    forall i :: 0 <= i < |s| - 1 ==> !(s[i] == a && s[i + 1] == b)
  }

  /** A replacement text that cannot create the pair `ab` at its own edges. */
  predicate SafeFor(rep: string, a: char, b: char) {
    |rep| > 0 && NoPair(rep, a, b) && rep[0] != b && rep[|rep| - 1] != a
  }

  lemma ReplaceFirst(s: string, pat: string, rep: string)
    requires |pat| > 0 && |rep| > 0 && |s| > 0
    ensures var r := Replace(s, pat, rep);
      |r| > 0 && r[0] == (if StartsWith(s, pat) then rep[0] else s[0])
  {
  }

  /** Replacing a two-character pattern with a safe text leaves no pair `ab`
      behind, either because `ab` is the pattern being replaced or because
      the input had none. */
  lemma {:induction false} ReplaceNoPair(s: string, pat: string, rep: string, a: char, b: char)
    requires |pat| == 2 && SafeFor(rep, a, b)
    requires pat == [a, b] || NoPair(s, a, b)
    ensures NoPair(Replace(s, pat, rep), a, b)
    decreases |s|
  {
    var r := Replace(s, pat, rep);
    if |s| < 2 {
    } else if StartsWith(s, pat) {
      var tail := s[2..];
      ReplaceNoPair(tail, pat, rep, a, b);
      var rt := Replace(tail, pat, rep);
      assert r == rep + rt;
      if |rt| > 0 {
        assert |tail| > 0;
        ReplaceFirst(tail, pat, rep);
      }
      forall i | 0 <= i < |r| - 1
        ensures !(r[i] == a && r[i + 1] == b)
      {
        if i < |rep| - 1 {
          assert r[i] == rep[i] && r[i + 1] == rep[i + 1];
        } else if i == |rep| - 1 {
          assert r[i] == rep[|rep| - 1];
        } else {
          assert r[i] == rt[i - |rep|] && r[i + 1] == rt[i - |rep| + 1];
        }
      }
    } else {
      var tail := s[1..];
      ReplaceNoPair(tail, pat, rep, a, b);
      var rt := Replace(tail, pat, rep);
      assert r == [s[0]] + rt;
      ReplaceFirst(tail, pat, rep);
      assert r[0] == s[0];
      if s[0] == a {
        // the pair `ab` cannot start at the front of the output
        assert rt[0] == (if StartsWith(tail, pat) then rep[0] else s[1]);
        if StartsWith(tail, pat) {
          assert rt[0] != b;
        } else {
          if pat == [a, b] {
            assert s[1] != b by { assert s[..2] != pat; }
          } else {
            assert s[1] != b by { assert !(s[0] == a && s[1] == b); }
          }
        }
      }
      forall i | 0 <= i < |r| - 1
        ensures !(r[i] == a && r[i + 1] == b)
      {
        if i > 0 {
          assert r[i] == rt[i - 1] && r[i + 1] == rt[i];
        }
      }
    }
  }

  /** A text that starts with the pattern has it replaced first. */
  lemma ReplaceHead(y: string, pat: string, rep: string)
    requires |pat| > 0
    ensures Replace(pat + y, pat, rep) == rep + Replace(y, pat, rep)
  {
    assert StartsWith(pat + y, pat) by { assert (pat + y)[..|pat|] == pat; }
    assert (pat + y)[|pat|..] == y;
  }

  /** A prefix holding no first character of the pattern is copied, and the
      replacing goes on in the rest. */
  lemma {:induction false} ReplacePrefix(p: string, y: string, pat: string, rep: string)
    requires |pat| > 0 && pat[0] !in p
    ensures Replace(p + y, pat, rep) == p + Replace(y, pat, rep)
    decreases |p|
  {
    if |p| > 0 {
      var t := p + y;
      ReplacePrefix(p[1..], y, pat, rep);
      assert t[1..] == p[1..] + y;
      if |t| >= |pat| {
        assert !StartsWith(t, pat) by { assert t[..|pat|][0] == p[0]; }
        calc {
          Replace(t, pat, rep);
          [t[0]] + Replace(t[1..], pat, rep);
          [p[0]] + (p[1..] + Replace(y, pat, rep));
          { assert p == [p[0]] + p[1..]; }
          p + Replace(y, pat, rep);
        }
      } else {
        ReplaceShort(y, pat, rep);
      }
    } else {
      assert p + y == y;
    }
  }

  /** A text shorter than the pattern is left as it is. */
  lemma ReplaceShort(y: string, pat: string, rep: string)
    requires |pat| > 0 && |y| < |pat|
    ensures Replace(y, pat, rep) == y
  {
  }

  /** A pattern with a character that `s` lacks never matches, so the
      replacement leaves `s` as it is. */
  lemma {:induction false} ReplaceAbsent(s: string, pat: string, rep: string, j: nat)
    requires j < |pat| && pat[j] !in s
    ensures Replace(s, pat, rep) == s
    decreases |s|
  {
    if |s| >= |pat| {
      assert !StartsWith(s, pat) by { assert s[..|pat|][j] == s[j]; }
      ReplaceAbsent(s[1..], pat, rep, j);
      assert [s[0]] + s[1..] == s;
    }
  }

  // ---------------------------------------------------------------------------
  // filter

  /** `[x for x in xs if x != t]`, which is also what `drop` of one label
      does to a list of column names. */
  function Without(xs: seq<string>, t: string): (r: seq<string>)
    ensures |r| <= |xs|
    ensures t !in r
    ensures forall x :: x in r <==> x in xs && x != t
    decreases |xs|
  {
    if |xs| == 0 then []
    else if xs[0] == t then Without(xs[1..], t)
    else [xs[0]] + Without(xs[1..], t)
  }

  /** The filter looks at each element on its own: it distributes over
      concatenation ... */
  lemma {:induction false} WithoutAppend(a: seq<string>, b: seq<string>, t: string)
    ensures Without(a + b, t) == Without(a, t) + Without(b, t)
    decreases |a|
  {
    if |a| == 0 {
      assert a + b == b;
    } else {
      WithoutAppend(a[1..], b, t);
      assert (a + b)[0] == a[0] && (a + b)[1..] == a[1..] + b;
      var x, y := Without(a[1..], t), Without(b, t);
      if a[0] != t {
        assert [a[0]] + (x + y) == ([a[0]] + x) + y;
      }
    }
  }

  /** ... and keeps a single element exactly when it differs from `t`. */
  lemma WithoutSingle(x: string, t: string)
    ensures Without([x], t) == if x == t then [] else [x]
  {
    assert [x][1..] == [];
  }

  /** Removing an element that is not there changes nothing. */
  lemma {:induction false} WithoutAbsent(xs: seq<string>, t: string)
    requires t !in xs
    ensures Without(xs, t) == xs
    decreases |xs|
  {
    if |xs| > 0 {
      WithoutAbsent(xs[1..], t);
      assert [xs[0]] + xs[1..] == xs;
    }
  }

  // ---------------------------------------------------------------------------
  // strip and slicing

  function LStrip(s: string): (r: string)
    ensures |r| <= |s|
    ensures |r| > 0 ==> !IsSpace(r[0])
    decreases |s|
  {
    if |s| > 0 && IsSpace(s[0]) then LStrip(s[1..]) else s
  }

  function RStrip(s: string): (r: string)
    ensures |r| <= |s|
    ensures |r| > 0 ==> !IsSpace(r[|r| - 1]) && r[0] == s[0]
    decreases |s|
  {
    if |s| > 0 && IsSpace(s[|s| - 1]) then RStrip(s[..|s| - 1]) else s
  }

  /** `s.strip()` */
  function Strip(s: string): (r: string)
    ensures |r| <= |s|
    ensures |r| > 0 ==> !IsSpace(r[0]) && !IsSpace(r[|r| - 1])
  {
    RStrip(LStrip(s))
  }

  /** `s[1:-1]`: Python clamps the bounds, so a string shorter than two
      characters gives the empty string. */
  function DropEnds(s: string): (r: string)
    ensures |s| >= 2 ==> |r| == |s| - 2 && r == s[1..|s| - 1]
    ensures |s| < 2 ==> r == ""
  {
    if |s| >= 2 then s[1..|s| - 1] else ""
  }

  /** `s[-n:]`: the last `n` characters, or all of `s` when it is shorter. */
  function LastChars(s: string, n: nat): (r: string)
    ensures |r| == if |s| < n then |s| else n
    ensures r == s[|s| - |r|..]
  {
    if |s| < n then s else s[|s| - n..]
  }

  // ---------------------------------------------------------------------------
  // str(n) and int(s)

  function DigitChar(d: nat): (c: char)
    requires d < 10
    ensures IsDigit(c) && c as int - '0' as int == d
  {
    ('0' as int + d) as char
  }

  predicate AllDigits(s: string) {
    forall i :: 0 <= i < |s| ==> IsDigit(s[i])
  }

  /** `str(n)` for a non-negative integer: decimal, no leading zeros. */
  function NatToString(n: nat): (r: string)
    ensures |r| >= 1 && AllDigits(r)
    ensures n >= 10 <==> |r| >= 2
    decreases n
  {
    if n < 10 then [DigitChar(n)] else NatToString(n / 10) + [DigitChar(n % 10)]
  }

  /** `str` is injective on the naturals. */
  lemma {:induction false} NatToStringInjective(a: nat, b: nat)
    requires NatToString(a) == NatToString(b)
    ensures a == b
    decreases a
  {
    var s := NatToString(a);
    if a >= 10 {
      assert b >= 10;
      assert s[|s| - 1] == DigitChar(a % 10) == DigitChar(b % 10);
      assert s[..|s| - 1] == NatToString(a / 10) == NatToString(b / 10);
      NatToStringInjective(a / 10, b / 10);
    } else {
      assert s[0] == DigitChar(a) == DigitChar(b);
    }
  }

  /** The value of a string of decimal digits, most significant first. */
  function DigitsValue(s: string): (v: nat)
    requires AllDigits(s)
    decreases |s|
  {
    if |s| == 0 then 0
    else DigitsValue(s[..|s| - 1]) * 10 + (s[|s| - 1] as int - '0' as int)
  }

  /** The digits of a digit string with its `_` separators removed. */
  function DropUnderscores(s: string): (r: string)
    ensures |r| <= |s|
    ensures forall i :: 0 <= i < |r| ==> r[i] != '_'
    ensures GroupChars(s) ==> AllDigits(r)
    ensures '_' !in s ==> r == s
    decreases |s|
  {
    if |s| == 0 then ""
    else if s[0] == '_' then DropUnderscores(s[1..])
    else [s[0]] + DropUnderscores(s[1..])
  }

  /** The body of a Python integer literal: digits, optionally grouped by
      single underscores, starting and ending with a digit. */
  predicate IsDigitGroups(s: string) {
    && |s| > 0
    && IsDigit(s[0])
    && IsDigit(s[|s| - 1])
    && GroupChars(s)
  }

  /** Every character of `s` is a digit or `_`, and no `_` follows another. */
  predicate GroupChars(s: string)
    decreases |s|
  {
    |s| == 0 || ((IsDigit(s[0]) || (s[0] == '_' && (|s| < 2 || s[1] != '_'))) && GroupChars(s[1..]))
  }

  lemma {:induction false} DigitsAreGroupChars(s: string)
    requires AllDigits(s)
    ensures GroupChars(s)
    decreases |s|
  {
    if |s| > 0 {
      DigitsAreGroupChars(s[1..]);
    }
  }

  /** The value of a body of digit groups. */
  function UnsignedValue(body: string): (v: int)
    requires IsDigitGroups(body)
    ensures v >= 0
  {
    DigitsValue(DropUnderscores(body))
  }

  /** Whether `t` starts with a sign character. */
  predicate HasSign(t: string) {
    |t| > 0 && (t[0] == '+' || t[0] == '-')
  }

  /** `int(s)` in base 10: surrounding whitespace, an optional sign, then
      digit groups; anything else raises `ValueError` naming `s`. */
  function ParseInt(s: string): (r: Result<int>)
    ensures r.Err? ==> r == Err(ValueError(s))
  {
    ParseTrimmed(Strip(s), s)
  }

  /** `int` of an already stripped string `t`; `text` is what a failure reports. */
  function ParseTrimmed(t: string, text: string): Result<int> {
    var body := if HasSign(t) then t[1..] else t;
    if !IsDigitGroups(body) then Err(ValueError(text))
    else if HasSign(t) && t[0] == '-' then Ok(-UnsignedValue(body))
    else Ok(UnsignedValue(body))
  }

  lemma {:induction false} DigitsValueOfNat(n: nat)
    ensures DigitsValue(NatToString(n)) == n
    decreases n
  {
    var s := NatToString(n);
    if n >= 10 {
      DigitsValueOfNat(n / 10);
      assert s[..|s| - 1] == NatToString(n / 10);
    }
  }

  /** A string with no whitespace at either end is its own `strip()`. */
  lemma StripTrimmed(s: string)
    requires |s| > 0 && !IsSpace(s[0]) && !IsSpace(s[|s| - 1])
    ensures Strip(s) == s
  {
    assert LStrip(s) == s;
  }

  lemma DigitsAreGroups(s: string)
    requires |s| > 0 && AllDigits(s)
    ensures IsDigitGroups(s)
    ensures '_' !in s
    ensures DropUnderscores(s) == s
  {
    DigitsAreGroupChars(s);
  }

  /** `int` reads a plain digit string. */
  lemma ParseDigits(s: string)
    requires |s| > 0 && AllDigits(s)
    ensures ParseInt(s) == Ok(DigitsValue(s))
  {
    StripTrimmed(s);
    DigitsAreGroups(s);
    assert !HasSign(s) by { assert IsDigit(s[0]); }
  }

  /** Digit groups hold nothing but digits and underscores. */
  lemma {:induction false} GroupCharsAt(s: string, j: nat)
    requires GroupChars(s) && j < |s|
    ensures IsDigit(s[j]) || s[j] == '_'
    decreases |s|
  {
    if j > 0 {
      GroupCharsAt(s[1..], j - 1);
    }
  }

  /** `int` rejects any text whose stripped form holds a character other
      than a digit or `_`, except for a sign in front. */
  lemma ParseIntRejects(s: string, i: nat)
    requires i < |Strip(s)|
    requires !IsDigit(Strip(s)[i]) && Strip(s)[i] != '_'
    requires i == 0 ==> Strip(s)[i] != '+' && Strip(s)[i] != '-'
    ensures ParseInt(s) == Err(ValueError(s))
  {
    var t := Strip(s);
    var body := if HasSign(t) then t[1..] else t;
    if IsDigitGroups(body) {
      if HasSign(t) {
        assert body[i - 1] == t[i];
        GroupCharsAt(body, i - 1);
      } else {
        GroupCharsAt(body, i);
      }
    }
  }

  /** `int` rejects a literal that ends in `_`, such as `1_`: groups must
      end with a digit. */
  lemma ParseIntTrailingUnderscore(s: string)
    requires |Strip(s)| > 0 && Strip(s)[|Strip(s)| - 1] == '_'
    ensures ParseInt(s) == Err(ValueError(s))
  {
    var t := Strip(s);
    var body := if HasSign(t) then t[1..] else t;
    assert |body| > 0 ==> body[|body| - 1] == t[|t| - 1];
  }

  /** Leading white space is all `lstrip` removes from a blank text. */
  lemma {:induction false} LStripBlank(s: string)
    requires forall i :: 0 <= i < |s| ==> IsSpace(s[i])
    ensures LStrip(s) == ""
    decreases |s|
  {
    if |s| > 0 {
      LStripBlank(s[1..]);
    }
  }

  /** `int` rejects an empty or blank text. */
  lemma ParseIntBlank(s: string)
    requires forall i :: 0 <= i < |s| ==> IsSpace(s[i])
    ensures ParseInt(s) == Err(ValueError(s))
  {
    LStripBlank(s);
  }

  /** `int` of a text that is only a sign fails: the digits are missing. */
  lemma ParseIntSignOnly(s: string)
    requires Strip(s) == "+" || Strip(s) == "-"
    ensures ParseInt(s) == Err(ValueError(s))
  {
  }

  /** `int(str(n)) == n` */
  lemma ParseIntRoundTrip(n: nat)
    ensures ParseInt(NatToString(n)) == Ok(n)
  {
    var s := NatToString(n);
    ParseDigits(s);
    DigitsValueOfNat(n);
  }
}
