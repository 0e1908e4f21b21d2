/** `encodeURIComponent` (client/api_client.go, and its copy
    `EncodeURIComponent` in command/api_client.go): `url.QueryEscape`, then
    `%28` back to `(`, `%29` back to `)` and `+` to `%20`.

    Go strings are byte strings; a character of the model stands for one
    byte, and the lemmas ask that every character is below 256. */
module Uri {

  import opened Text

  predicate IsByte(c: char) {
    (c as int) < 256
  }

  predicate IsBytes(s: string) {
    forall k :: 0 <= k < |s| ==> IsByte(s[k])
  }

  /** The unreserved characters of section 2.3 of RFC 3986. */
  predicate Unreserved(c: char) {
    ('A' <= c <= 'Z') || ('a' <= c <= 'z') || ('0' <= c <= '9') || c == '-' || c == '.' || c == '_' || c == '~'
  }

  /** An upper-case hexadecimal digit. */
  function HexDigit(d: nat): (c: char)
    requires d < 16
    ensures IsUpperHex(c)
    ensures c != '%' && c != '+' && c != '(' && c != ')'
  {
    if d < 10 then (('0' as int) + d) as char else (('A' as int) + d - 10) as char
  }

  predicate IsUpperHex(c: char) {
    ('0' <= c <= '9') || ('A' <= c <= 'F')
  }

  predicate IsHex(c: char) {
    ('0' <= c <= '9') || ('A' <= c <= 'F') || ('a' <= c <= 'f')
  }

  function HexValue(c: char): (d: nat)
    requires IsHex(c)
    ensures d < 16
  {
    if '0' <= c <= '9' then (c as int) - ('0' as int)
    else if 'A' <= c <= 'F' then (c as int) - ('A' as int) + 10
    else (c as int) - ('a' as int) + 10
  }

  lemma HexRoundTrip(d: nat)
    requires d < 16
    ensures IsHex(HexDigit(d)) && HexValue(HexDigit(d)) == d
  {
  }

  /** Percent-encoding of the byte `c` stands for (section 2.1 of RFC 3986). */
  function Escape(c: char): (r: string)
    ensures |r| == 3 && r[0] == '%'
  {
    var b := (c as int) % 256;
    ['%', HexDigit(b / 16), HexDigit(b % 16)]
  }

  /** `url.QueryEscape` on one byte: unreserved bytes are kept, space
      becomes `+`, every other byte is percent-encoded. */
  function QueryEscapeChar(c: char): string {
    if Unreserved(c) then [c] else if c == ' ' then "+" else Escape(c)
  }

  function QueryEscape(s: string): string {
    Flat(QueryEscapeChar, s)
  }

  /** `encodeURIComponent`, as the three replacements after `QueryEscape`. */
  function EncodeURIComponent(component: string): string {
    var regularEscaped := QueryEscape(component);
    var openKept := ReplaceAll(regularEscaped, "%28", "(");
    var parensKept := ReplaceAll(openKept, "%29", ")");
    ReplaceAll(parensKept, "+", "%20")
  }

  /** What `encodeURIComponent` writes for one byte: unreserved bytes and
      the two parentheses literally, everything else percent-encoded,
      space included. */
  function ComponentChar(c: char): (r: string)
    ensures r == [c] || (|r| == 3 && r[0] == '%')
  {
    if Unreserved(c) || c == '(' || c == ')' then [c] else Escape(c)
  }

  /** The inverse used to state that the encoding loses nothing: `%HH`
      becomes the byte `HH`, any other character is kept. */
  function DecodeURIComponent(t: string): string
    decreases |t|
  {
    if |t| >= 3 && t[0] == '%' && IsHex(t[1]) && IsHex(t[2]) then
      [(HexValue(t[1]) * 16 + HexValue(t[2])) as char] + DecodeURIComponent(t[3..])
    else if t == [] then []
    else [t[0]] + DecodeURIComponent(t[1..])
  }

  // ---------------------------------------------------------------------
  // The replacement chain is a per-byte encoding

  function KeepOpen(c: char): string {
    if c == '(' then "(" else QueryEscapeChar(c)
  }

  function KeepParens(c: char): string {
    if c == ')' then ")" else KeepOpen(c)
  }

  function SpaceEscaped(c: char): string {
    if c == ' ' then "%20" else KeepParens(c)
  }

  lemma EscapeIs(c: char, h: char, l: char)
    requires IsByte(c) && h == HexDigit((c as int) / 16) && l == HexDigit((c as int) % 16)
    ensures Escape(c) == ['%', h, l]
  {
    var b := c as int;
    assert b % 256 == b;
  }

  lemma ByteParts(b: int)
    requires 0 <= b < 256
    ensures b % 256 == b && b / 16 < 16 && b == (b / 16) * 16 + b % 16
  {
  }

  /** The two hexadecimal digits of a byte's encoding, read back. */
  lemma EscapeDigits(c: char)
    requires IsByte(c)
    ensures IsHex(Escape(c)[1]) && IsHex(Escape(c)[2])
    ensures HexValue(Escape(c)[1]) * 16 + HexValue(Escape(c)[2]) == c as int
  {
    var b := c as int;
    ByteParts(b);
    HexRoundTrip(b / 16);
    HexRoundTrip(b % 16);
  }

  /** Percent-encodings of different bytes differ. */
  lemma EscapeInjective(c: char, d: char)
    requires IsByte(c) && IsByte(d) && Escape(c) == Escape(d)
    ensures c == d
  {
    EscapeDigits(c);
    EscapeDigits(d);
  }

  lemma OpenStep(c: char)
    requires IsByte(c)
    ensures (QueryEscapeChar(c) == "%28" && KeepOpen(c) == "(") ||
            (KeepOpen(c) == QueryEscapeChar(c) && UnitSafe(QueryEscapeChar(c), "%28"))
  {
    if c == '(' {
      EscapeIs('(', '2', '8');
    } else if !Unreserved(c) && c != ' ' {
      if Escape(c) == "%28" {
        EscapeIs('(', '2', '8');
        EscapeInjective(c, '(');
      }
    }
  }

  lemma CloseStep(c: char)
    requires IsByte(c)
    ensures (KeepOpen(c) == "%29" && KeepParens(c) == ")") ||
            (KeepParens(c) == KeepOpen(c) && UnitSafe(KeepOpen(c), "%29"))
  {
    if c == ')' {
      EscapeIs(')', '2', '9');
    } else if !Unreserved(c) && c != ' ' && c != '(' {
      if Escape(c) == "%29" {
        EscapeIs(')', '2', '9');
        EscapeInjective(c, ')');
      }
    }
  }

  lemma PlusStep(c: char)
    requires IsByte(c)
    ensures (KeepParens(c) == "+" && SpaceEscaped(c) == "%20") ||
            (SpaceEscaped(c) == KeepParens(c) && UnitSafe(KeepParens(c), "+"))
  {
  }

  lemma SpaceStep(c: char)
    requires IsByte(c)
    ensures SpaceEscaped(c) == ComponentChar(c)
  {
    if c == ' ' {
      EscapeIs(' ', '2', '0');
    }
  }

  lemma {:induction false} FlatSame(f: char -> string, g: char -> string, s: string)
    requires forall k :: 0 <= k < |s| ==> f(s[k]) == g(s[k])
    ensures Flat(f, s) == Flat(g, s)
    decreases |s|
  {
    if s != [] {
      assert forall k :: 0 <= k < |s[1..]| ==> s[1..][k] == s[k + 1];
      FlatSame(f, g, s[1..]);
    }
  }

  /** `encodeURIComponent` writes `ComponentChar` for every byte. */
  lemma EncodeFlat(s: string)
    requires IsBytes(s)
    ensures EncodeURIComponent(s) == Flat(ComponentChar, s)
  {
    forall k | 0 <= k < |s|
      ensures (QueryEscapeChar(s[k]) == "%28" && KeepOpen(s[k]) == "(") ||
              (KeepOpen(s[k]) == QueryEscapeChar(s[k]) && UnitSafe(QueryEscapeChar(s[k]), "%28"))
    {
      OpenStep(s[k]);
    }
    ReplaceFlat(QueryEscapeChar, KeepOpen, s, "%28", "(");
    forall k | 0 <= k < |s|
      ensures (KeepOpen(s[k]) == "%29" && KeepParens(s[k]) == ")") ||
              (KeepParens(s[k]) == KeepOpen(s[k]) && UnitSafe(KeepOpen(s[k]), "%29"))
    {
      CloseStep(s[k]);
    }
    ReplaceFlat(KeepOpen, KeepParens, s, "%29", ")");
    forall k | 0 <= k < |s|
      ensures (KeepParens(s[k]) == "+" && SpaceEscaped(s[k]) == "%20") ||
              (SpaceEscaped(s[k]) == KeepParens(s[k]) && UnitSafe(KeepParens(s[k]), "+"))
    {
      PlusStep(s[k]);
    }
    ReplaceFlat(KeepParens, SpaceEscaped, s, "+", "%20");
    forall k | 0 <= k < |s|
      ensures SpaceEscaped(s[k]) == ComponentChar(s[k])
    {
      SpaceStep(s[k]);
    }
    FlatSame(SpaceEscaped, ComponentChar, s);
  }

  // ---------------------------------------------------------------------
  // What the encoding promises

  /** The characters an encoded component is written in. */
  predicate EncodedChar(c: char) {
    Unreserved(c) || c == '(' || c == ')' || c == '%' || IsHex(c)
  }

  lemma {:induction false} FlatComponentAlphabet(s: string)
    ensures forall k :: 0 <= k < |Flat(ComponentChar, s)| ==> EncodedChar(Flat(ComponentChar, s)[k])
    decreases |s|
  {
    if s != [] {
      FlatComponentAlphabet(s[1..]);
      var u := ComponentChar(s[0]);
      assert forall k :: 0 <= k < |u| ==> EncodedChar(u[k]);
    }
  }

  /** Every `%` starts an escape: two upper-case hexadecimal digits
      follow it. */
  predicate WellEscaped(t: string) {
    forall k :: 0 <= k < |t| && t[k] == '%' ==> k + 2 < |t| && IsUpperHex(t[k + 1]) && IsUpperHex(t[k + 2])
  }

  lemma EscapedJoin(u: string, rest: string)
    requires u == [] || (u[0] != '%' && |u| == 1) || (|u| == 3 && u[0] == '%' && IsUpperHex(u[1]) && IsUpperHex(u[2]) && u[1] != '%' && u[2] != '%')
    requires WellEscaped(rest)
    ensures WellEscaped(u + rest)
  {
    var t := u + rest;
    forall k | 0 <= k < |t| && t[k] == '%'
      ensures k + 2 < |t| && IsUpperHex(t[k + 1]) && IsUpperHex(t[k + 2])
    {
      if k >= |u| {
        assert t[k] == rest[k - |u|];
        assert t[k + 1] == rest[k - |u| + 1] && t[k + 2] == rest[k - |u| + 2];
      }
    }
  }

  lemma {:induction false} FlatComponentEscapes(s: string)
    ensures WellEscaped(Flat(ComponentChar, s))
    decreases |s|
  {
    if s != [] {
      FlatComponentEscapes(s[1..]);
      var u := ComponentChar(s[0]);
      if u != [s[0]] {
        var b := (s[0] as int) % 256;
        assert u == ['%', HexDigit(b / 16), HexDigit(b % 16)];
      }
      EscapedJoin(u, Flat(ComponentChar, s[1..]));
    }
  }

  /** The encoding is written only in unreserved characters, parentheses,
      `%` and hexadecimal digits: no `+`, no space, no `/`, `?`, `&` or `=`. */
  lemma EncodeAlphabet(s: string)
    requires IsBytes(s)
    ensures forall k :: 0 <= k < |EncodeURIComponent(s)| ==> EncodedChar(EncodeURIComponent(s)[k])
    ensures WellEscaped(EncodeURIComponent(s))
    ensures '+' !in EncodeURIComponent(s) && ' ' !in EncodeURIComponent(s)
    ensures '/' !in EncodeURIComponent(s) && '&' !in EncodeURIComponent(s) && '?' !in EncodeURIComponent(s)
  {
    EncodeFlat(s);
    FlatComponentAlphabet(s);
    FlatComponentEscapes(s);
  }

  lemma {:induction false} DecodeFlat(s: string)
    requires IsBytes(s)
    ensures DecodeURIComponent(Flat(ComponentChar, s)) == s
    decreases |s|
  {
    if s != [] {
      var c := s[0];
      var rest := Flat(ComponentChar, s[1..]);
      DecodeFlat(s[1..]);
      var t := ComponentChar(c) + rest;
      if ComponentChar(c) == [c] {
        assert t[0] == c && t[1..] == rest;
      } else {
        EscapeDigits(c);
        assert t[..3] == Escape(c) && t[3..] == rest;
      }
      assert s == [c] + s[1..];
    }
  }

  /** Nothing is lost: decoding the encoding gives the component back. */
  lemma EncodeRoundTrip(s: string)
    requires IsBytes(s)
    ensures DecodeURIComponent(EncodeURIComponent(s)) == s
  {
    EncodeFlat(s);
    DecodeFlat(s);
  }

  /** Encoding a concatenation encodes the parts one after the other. */
  lemma EncodeAppend(a: string, b: string)
    requires IsBytes(a) && IsBytes(b)
    ensures EncodeURIComponent(a + b) == EncodeURIComponent(a) + EncodeURIComponent(b)
  {
    assert IsBytes(a + b) by {
      assert forall k :: 0 <= k < |a + b| ==> (a + b)[k] == (if k < |a| then a[k] else b[k - |a|]);
    }
    EncodeFlat(a);
    EncodeFlat(b);
    EncodeFlat(a + b);
    FlatAppend(ComponentChar, a, b);
  }

  /** Space is written `%20`, the parentheses literally. */
  lemma EncodeSpaceAndParens()
    ensures EncodeURIComponent(" ") == "%20"
    ensures EncodeURIComponent("(") == "(" && EncodeURIComponent(")") == ")"
  {
    EncodeFlat(" ");
    SpaceFlat();
    EncodeFlat("(");
    EncodeFlat(")");
  }

  /** The escape of a space alone. */
  lemma SpaceFlat()
    ensures Flat(ComponentChar, " ") == "%20"
  {
    EscapeIs(' ', '2', '0');
  }

}
