/** The pieces of Go's `strings` and `fmt` packages that the repository calls.
    A Go string is a sequence of bytes; the model writes it as a `string` whose
    every character stands for one byte, so Go's `len` is `|s|`. */
module Text {

  /** `s[i..]` starts with `lit` (the test behind `strings.HasPrefix` and
      every literal match). */
  predicate At(s: string, i: nat, lit: string) {
    i + |lit| <= |s| && s[i..i + |lit|] == lit
  }

  lemma SliceSplit(s: string, a: nat, b: nat, c: nat)
    requires a <= b <= c <= |s|
    ensures s[a..c] == s[a..b] + s[b..c]
  {
  }

  /** `strings.Contains(s, sub)`. */
  predicate Contains(s: string, sub: string) {
    exists i :: 0 <= i <= |s| && At(s, i, sub)
  }

  /** `strings.Index(s, sub)`: the first position of `sub` in `s`, or -1. */
  function Index(s: string, sub: string): (r: int)
    ensures -1 <= r <= |s|
    ensures r >= 0 ==> At(s, r, sub) && forall j :: 0 <= j < r ==> !At(s, j, sub)
    ensures r == -1 <==> !Contains(s, sub)
  {
    IndexFrom(s, sub, 0)
  }

  /** A character that does not occur as a one-character substring does
      not occur at all. */
  lemma CharAbsent(t: string, c: char)
    requires !Contains(t, [c])
    ensures c !in t
  {
    if c in t {
      var j :| 0 <= j < |t| && t[j] == c;
      assert At(t, j, [c]);
    }
  }

  /** `index` is the first position of the one-character string `[c]`:
      `t[index]` is `c` and `c` does not occur before it. */
  lemma FirstCharAt(t: string, c: char, index: int)
    requires 0 <= index <= |t| && At(t, index, [c])
    requires forall j :: 0 <= j < index ==> !At(t, j, [c])
    ensures index < |t| && t[index] == c && c !in t[..index]
  {
    assert t[index..index + 1] == [c];
    if c in t[..index] {
      var j :| 0 <= j < index && t[..index][j] == c;
      assert t[j..j + 1] == [c];
      assert At(t, j, [c]);
    }
  }

  function IndexFrom(s: string, sub: string, i: nat): (r: int)
    requires i <= |s|
    ensures r == -1 || i <= r <= |s|
    ensures r >= 0 ==> At(s, r, sub) && forall j :: i <= j < r ==> !At(s, j, sub)
    ensures r == -1 <==> forall j :: i <= j <= |s| ==> !At(s, j, sub)
    decreases |s| - i
  {
    if At(s, i, sub) then i
    else if i == |s| then -1
    else IndexFrom(s, sub, i + 1)
  }

  /** `strings.Replace(s, pat, rep, -1)` for a non-empty `pat`: every
      non-overlapping occurrence of `pat`, scanning from the left, becomes `rep`. */
  function ReplaceAll(s: string, pat: string, rep: string): string
    requires pat != []
    decreases |s|
  {
    if At(s, 0, pat) then rep + ReplaceAll(s[|pat|..], pat, rep)
    else if s == [] then []
    else [s[0]] + ReplaceAll(s[1..], pat, rep)
  }

  /** The string obtained by writing `f(c)` for every character `c` of `s`. */
  function Flat(f: char -> string, s: string): string
    decreases |s|
  {
    if s == [] then [] else f(s[0]) + Flat(f, s[1..])
  }

  lemma {:induction false} FlatAppend(f: char -> string, a: string, b: string)
    ensures Flat(f, a + b) == Flat(f, a) + Flat(f, b)
    decreases |a|
  {
    if a == [] {
      assert a + b == b;
    } else {
      assert (a + b)[1..] == a[1..] + b;
      FlatAppend(f, a[1..], b);
    }
  }

  /** No occurrence of `pat` can begin inside `u`, whatever follows `u`:
      every position of `u` holding `pat[0]` leaves room for `pat` within `u`
      and does not hold it. */
  predicate UnitSafe(u: string, pat: string)
    requires pat != []
  {
    forall j :: 0 <= j < |u| && u[j] == pat[0] ==> j + |pat| <= |u| && u[j..j + |pat|] != pat
  }

  lemma {:induction false} ReplaceSafeUnit(u: string, rest: string, pat: string, rep: string)
    requires pat != [] && UnitSafe(u, pat)
    ensures ReplaceAll(u + rest, pat, rep) == u + ReplaceAll(rest, pat, rep)
    decreases |u|
  {
    if u != [] {
      var s := u + rest;
      if u[0] == pat[0] {
        assert s[..|pat|] == u[..|pat|];
      }
      assert !At(s, 0, pat);
      assert s[1..] == u[1..] + rest;
      assert UnitSafe(u[1..], pat) by {
        forall j | 0 <= j < |u[1..]| && u[1..][j] == pat[0]
          ensures j + |pat| <= |u[1..]| && u[1..][j..j + |pat|] != pat
        {
          assert u[j + 1] == pat[0];
          assert u[1..][j..j + |pat|] == u[j + 1..j + 1 + |pat|];
        }
      }
      ReplaceSafeUnit(u[1..], rest, pat, rep);
      assert u == [u[0]] + u[1..];
    } else {
      assert u + rest == rest;
    }
  }

  lemma ReplaceMatchUnit(rest: string, pat: string, rep: string)
    requires pat != []
    ensures ReplaceAll(pat + rest, pat, rep) == rep + ReplaceAll(rest, pat, rep)
  {
    var s := pat + rest;
    assert s[..|pat|] == pat;
    assert s[|pat|..] == rest;
  }

  /** Replacing every `pat` in a text built unit by unit from `f` yields the
      text built from `g`, when each unit is either `pat` itself (and `g` writes
      `rep` for it) or a unit `g` keeps and in which no occurrence can begin. */
  lemma {:induction false} ReplaceFlat(f: char -> string, g: char -> string, s: string, pat: string, rep: string)
    requires pat != []
    requires forall k :: 0 <= k < |s| ==>
      (f(s[k]) == pat && g(s[k]) == rep) || (g(s[k]) == f(s[k]) && UnitSafe(f(s[k]), pat))
    ensures ReplaceAll(Flat(f, s), pat, rep) == Flat(g, s)
    decreases |s|
  {
    if s != [] {
      assert forall k :: 0 <= k < |s[1..]| ==> s[1..][k] == s[k + 1];
      ReplaceFlat(f, g, s[1..], pat, rep);
      if f(s[0]) == pat && g(s[0]) == rep {
        ReplaceMatchUnit(Flat(f, s[1..]), pat, rep);
      } else {
        ReplaceSafeUnit(f(s[0]), Flat(f, s[1..]), pat, rep);
      }
    }
  }

  /** How many characters of `s` satisfy `p`. */
  function CountWhere(p: char -> bool, s: string): nat
    decreases |s|
  {
    if s == [] then 0 else (if p(s[0]) then 1 else 0) + CountWhere(p, s[1..])
  }

  /** `strings.Join(parts, sep)`. */
  function Join(parts: seq<string>, sep: string): string
    decreases |parts|
  {
    if parts == [] then ""
    else if |parts| == 1 then parts[0]
    else parts[0] + sep + Join(parts[1..], sep)
  }

  lemma {:induction false} JoinSnoc(parts: seq<string>, last: string, sep: string)
    requires parts != []
    ensures Join(parts + [last], sep) == Join(parts, sep) + sep + last
    decreases |parts|
  {
    if |parts| == 1 {
      assert parts + [last] == [parts[0], last];
      assert [parts[0], last][1..] == [last];
    } else {
      assert (parts + [last])[1..] == parts[1..] + [last];
      JoinSnoc(parts[1..], last, sep);
    }
  }

  /** The decimal digit for `d`. */
  function DigitChar(d: nat): (c: char)
    requires d < 10
    ensures '0' <= c <= '9' && (c as int) - ('0' as int) == d
  {
    (('0' as int) + d) as char
  }

  predicate IsDigits(s: string) {
    forall k :: 0 <= k < |s| ==> '0' <= s[k] <= '9'
  }

  /** `fmt.Sprintf("%d", n)` for a non-negative `n`: the shortest decimal
      numeral of `n`. */
  function Decimal(n: nat): (r: string)
    ensures |r| >= 1 && IsDigits(r)
    ensures r[0] == '0' ==> n == 0
    decreases n
  {
    if n < 10 then [DigitChar(n)] else Decimal(n / 10) + [DigitChar(n % 10)]
  }

  /** The number a string of decimal digits denotes. */
  function DecimalValue(s: string): nat
    requires IsDigits(s)
    decreases |s|
  {
    if s == [] then 0
    else DecimalValue(s[..|s| - 1]) * 10 + ((s[|s| - 1] as int) - ('0' as int))
  }

  lemma {:induction false} DecimalRoundTrip(n: nat)
    ensures DecimalValue(Decimal(n)) == n
    decreases n
  {
    if n >= 10 {
      var r := Decimal(n);
      assert r[..|r| - 1] == Decimal(n / 10);
      DecimalRoundTrip(n / 10);
    }
  }

  /** `fmt.Sprintf("%d", i)` for any Go `int`: a minus sign for negatives. */
  function IntString(i: int): (r: string)
    ensures |r| >= 1
  {
    if i < 0 then "-" + Decimal(-i) else Decimal(i)
  }

  /** Lower-casing of one ASCII character; other characters are kept. */
  function LowerChar(c: char): char {
    if 'A' <= c <= 'Z' then ((c as int) + 32) as char else c
  }

  predicate IsUpper(c: char) {
    'A' <= c <= 'Z'
  }

  /** `strings.ToLower` restricted to ASCII letters: no capital is left,
      each capital becomes the letter 32 code points above it, and every
      other character is kept in place. */
  function ToLower(s: string): (r: string)
    ensures |r| == |s|
    ensures forall k :: 0 <= k < |r| ==> !IsUpper(r[k])
    ensures forall k :: 0 <= k < |s| && IsUpper(s[k]) ==> r[k] as int == s[k] as int + 32
    ensures forall k :: 0 <= k < |s| && !IsUpper(s[k]) ==> r[k] == s[k]
  {
    seq(|s|, k requires 0 <= k < |s| => LowerChar(s[k]))
  }

  /** Lower-casing twice is lower-casing once. */
  lemma ToLowerIdempotent(s: string)
    ensures ToLower(ToLower(s)) == ToLower(s)
  {
    var t := ToLower(s);
    forall k | 0 <= k < |t|
      ensures ToLower(t)[k] == t[k]
    {
      assert !IsUpper(t[k]);
    }
  }

  /** Lower-casing works character by character: it distributes over
      concatenation. */
  lemma ToLowerAppend(a: string, b: string)
    ensures ToLower(a + b) == ToLower(a) + ToLower(b)
  {
    var l, r := ToLower(a + b), ToLower(a) + ToLower(b);
    forall k | 0 <= k < |l|
      ensures l[k] == r[k]
    {
      if k < |a| {
        assert (a + b)[k] == a[k];
      } else {
        assert (a + b)[k] == b[k - |a|];
      }
    }
  }

  /** A text without capitals is its own lower case. */
  lemma ToLowerNoUpper(s: string)
    requires forall k :: 0 <= k < |s| ==> !IsUpper(s[k])
    ensures ToLower(s) == s
  {
  }

  /** Two texts that differ only in the case of their letters have the
      same lower case. */
  lemma ToLowerCaseBlind(a: string, b: string)
    requires |a| == |b|
    requires forall k :: 0 <= k < |a| ==> LowerChar(a[k]) == LowerChar(b[k])
    ensures ToLower(a) == ToLower(b)
  {
    forall k | 0 <= k < |a|
      ensures ToLower(a)[k] == ToLower(b)[k]
    {
      assert ToLower(a)[k] == LowerChar(a[k]);
      assert ToLower(b)[k] == LowerChar(b[k]);
    }
  }

}
