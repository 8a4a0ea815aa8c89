/** The handful of Python string operations the modelled code relies on:
    `sep.join(xs)`, `s.split(sep)`, `s.find(pat)`, `s.replace(old, new)`, `s.strip()`,
    `str(n)` for a natural number, `repr(s)` for a string, and `<=` on strings. */
module Text {
  import opened Wrappers

  // ---------------------------------------------------------------- join and split

  /** Python's `sep.join(xs)`. */
  function Join(xs: seq<string>, sep: string): string
  {
    if |xs| == 0 then "" else if |xs| == 1 then xs[0] else xs[0] + sep + Join(xs[1..], sep)
  }

  /** Joining a longer list adds the separator and the new element at the end. */
  lemma {:induction false} JoinAppend(xs: seq<string>, x: string, sep: string)
    ensures Join(xs + [x], sep) == if |xs| == 0 then x else Join(xs, sep) + sep + x
  {
    if |xs| > 1 {
      assert (xs + [x])[1..] == xs[1..] + [x];
      JoinAppend(xs[1..], x, sep);
    } else if |xs| == 1 {
      assert (xs + [x])[1..] == [x];
    }
  }

  /** True when `pat` occurs in `s` starting at position i. */
  predicate OccursAt(s: string, pat: string, i: nat)
  {
    i + |pat| <= |s| && s[i..i + |pat|] == pat
  }

  /** Python's `s.find(pat)` for a non-empty pattern: the first position where `pat` occurs. */
  function Find(s: string, pat: string): (r: Option<nat>)
    requires |pat| > 0
    ensures r.Some? ==> OccursAt(s, pat, r.value)
    ensures r.Some? ==> forall i :: 0 <= i < r.value ==> !OccursAt(s, pat, i)
    ensures r.None? ==> forall i :: 0 <= i <= |s| ==> !OccursAt(s, pat, i)
    decreases |s|
  {
    if |s| < |pat| then None
    else if s[..|pat|] == pat then Some(0)
    else
      OccursShift(s, pat);
      match Find(s[1..], pat)
      case None => None
      case Some(k) => Some(k + 1)
  }

  /** An occurrence in `s` after position 0 is an occurrence in `s[1..]`, one place earlier. */
  lemma OccursShift(s: string, pat: string)
    requires |s| > 0
    ensures OccursAt(s, pat, 0) <==> |pat| <= |s| && s[..|pat|] == pat
    ensures forall j :: 1 <= j <= |s| ==> (OccursAt(s, pat, j) <==> OccursAt(s[1..], pat, j - 1))
  {
    forall j | 1 <= j <= |s| ensures OccursAt(s, pat, j) <==> OccursAt(s[1..], pat, j - 1) {
      if j + |pat| <= |s| { assert s[1..][j - 1..j - 1 + |pat|] == s[j..j + |pat|]; }
    }
  }

  /** A pattern whose first character does not occur in `x` is found exactly after `x`. */
  lemma FindAfter(x: string, pat: string, rest: string)
    requires |pat| > 0 && pat[0] !in x
    ensures Find(x + pat + rest, pat) == Some(|x|)
    ensures Find(x, pat) == None
  {
    var s := x + pat + rest;
    assert s[|x|..|x| + |pat|] == pat;
    assert OccursAt(s, pat, |x|);
    forall i | 0 <= i < |x| ensures !OccursAt(s, pat, i) {
      assert s[i] == x[i];
    }
  }

  /** Python's `s.split(sep)` for a non-empty separator. */
  function Split(s: string, sep: string): (r: seq<string>)
    requires |sep| > 0
    ensures |r| > 0
    decreases |s|
  {
    match Find(s, sep)
    case None => [s]
    case Some(i) => [s[..i]] + Split(s[i + |sep|..], sep)
  }

  /** Splitting undoes joining when no element contains the separator's first character. */
  lemma SplitJoin(xs: seq<string>, sep: string)
    requires |sep| > 0 && |xs| > 0
    requires forall k :: 0 <= k < |xs| ==> sep[0] !in xs[k]
    ensures Split(Join(xs, sep), sep) == xs
  {
    var init, last := xs[..|xs| - 1], xs[|xs| - 1];
    assert xs == init + [last];
    SplitJoinPrefix(init, last, sep);
    FindAfter(last, sep, "");
    assert Split(last, sep) == [last];
  }

  /** Joining undoes splitting, whatever the string. */
  lemma {:induction false} JoinSplit(s: string, sep: string)
    requires |sep| > 0
    ensures Join(Split(s, sep), sep) == s
    decreases |s|
  {
    match Find(s, sep)
    case None =>
    case Some(i) =>
      var tail := s[i + |sep|..];
      var parts := Split(tail, sep);
      JoinSplit(tail, sep);
      assert s == s[..i] + sep + tail by { assert s[i..i + |sep|] == sep; }
      JoinCons(s[..i], parts, sep);
  }

  lemma JoinCons(x: string, xs: seq<string>, sep: string)
    requires |xs| > 0
    ensures Join([x] + xs, sep) == x + sep + Join(xs, sep)
  {
    assert ([x] + xs)[1..] == xs;
  }

  /** Splitting a join whose leading elements are free of the separator's first character
      gives those elements back, followed by the split of the last element. */
  lemma {:induction false} SplitJoinPrefix(xs: seq<string>, rest: string, sep: string)
    requires |sep| > 0
    requires forall k :: 0 <= k < |xs| ==> sep[0] !in xs[k]
    ensures Split(Join(xs + [rest], sep), sep) == xs + Split(rest, sep)
  {
    if |xs| > 0 {
      var all := xs + [rest];
      var tailList := xs[1..] + [rest];
      assert all == [xs[0]] + tailList;
      var tail := Join(tailList, sep);
      JoinCons(xs[0], tailList, sep);
      SplitPrefix(xs[0], sep, tail);
      SplitJoinPrefix(xs[1..], rest, sep);
      ConsAppend(xs, Split(rest, sep));
    }
  }

  lemma ConsAppend<T>(xs: seq<T>, ys: seq<T>)
    requires |xs| > 0
    ensures [xs[0]] + (xs[1..] + ys) == xs + ys
  {
    assert xs == [xs[0]] + xs[1..];
  }

  /** Splitting a string that starts with a separator-free piece and the separator. */
  lemma SplitPrefix(x: string, sep: string, rest: string)
    requires |sep| > 0 && sep[0] !in x
    ensures Split(x + sep + rest, sep) == [x] + Split(rest, sep)
  {
    FindAfter(x, sep, rest);
    var s := x + sep + rest;
    assert s[..|x|] == x;
    assert s[|x| + |sep|..] == rest;
  }

  // ---------------------------------------------------------------- replace

  /** Python's `s.replace(pat, rep)`: every non-overlapping occurrence, scanning left to right. */
  function ReplaceAll(s: string, pat: string, rep: string): string
    requires |pat| > 0
    decreases |s|
  {
    match Find(s, pat)
    case None => s
    case Some(i) => s[..i] + rep + ReplaceAll(s[i + |pat|..], pat, rep)
  }

  /** A string in which the pattern's first character never occurs is left as it is. */
  lemma ReplaceAbsent(s: string, pat: string, rep: string)
    requires |pat| > 0 && pat[0] !in s
    ensures ReplaceAll(s, pat, rep) == s
  {
    FindAfter(s, pat, "");
  }

  /** The first occurrence after a piece free of the pattern's first character is replaced,
      and replacing continues after it. */
  lemma ReplaceAfter(x: string, pat: string, rep: string, rest: string)
    requires |pat| > 0 && pat[0] !in x
    ensures ReplaceAll(x + pat + rest, pat, rep) == x + rep + ReplaceAll(rest, pat, rep)
  {
    FindAfter(x, pat, rest);
    var s := x + pat + rest;
    assert s[..|x|] == x;
    assert s[|x| + |pat|..] == rest;
  }

  // ---------------------------------------------------------------- strip

  /** The characters Python's `str.strip()` removes (`str.isspace`). */
  predicate IsSpace(c: char)
  {
    var n := c as int;
    (9 <= n <= 13) || (28 <= n <= 32) || n == 0x85 || n == 0xA0 || n == 0x1680 ||
    (0x2000 <= n <= 0x200A) || n == 0x2028 || n == 0x2029 || n == 0x202F || n == 0x205F || n == 0x3000
  }

  /** The position of the first non-whitespace character of `s` at or after `i`; |s| when
      there is none. */
  function FirstNonSpace(s: string, i: nat): (n: nat)
    requires i <= |s|
    ensures i <= n <= |s|
    ensures forall k :: i <= k < n ==> IsSpace(s[k])
    ensures n < |s| ==> !IsSpace(s[n])
    decreases |s| - i
  {
    if i < |s| && IsSpace(s[i]) then FirstNonSpace(s, i + 1) else i
  }

  /** The position just after the last non-whitespace character of `s` before `j`; 0 when
      there is none. */
  function EndOfNonSpace(s: string, j: nat): (n: nat)
    requires j <= |s|
    ensures n <= j
    ensures forall k :: n <= k < j ==> IsSpace(s[k])
    ensures n > 0 ==> !IsSpace(s[n - 1])
  {
    if j > 0 && IsSpace(s[j - 1]) then EndOfNonSpace(s, j - 1) else j
  }

  /** `s` without its leading whitespace. */
  function TrimStart(s: string): (r: string)
    ensures |r| <= |s| && r == s[|s| - |r|..]
    ensures forall k :: 0 <= k < |s| - |r| ==> IsSpace(s[k])
    ensures |r| > 0 ==> !IsSpace(r[0])
  {
    s[FirstNonSpace(s, 0)..]
  }

  /** `s` without its trailing whitespace. */
  function TrimEnd(s: string): (r: string)
    ensures |r| <= |s| && r == s[..|r|]
    ensures forall k :: |r| <= k < |s| ==> IsSpace(s[k])
    ensures |r| > 0 ==> !IsSpace(r[|r| - 1])
  {
    s[..EndOfNonSpace(s, |s|)]
  }

  /** Python's `s.strip()`. */
  function Strip(s: string): string
  {
    TrimEnd(TrimStart(s))
  }

  /** A string that starts with a non-whitespace character loses nothing at the front. */
  lemma TrimStartKeeps(s: string)
    requires |s| == 0 || !IsSpace(s[0])
    ensures TrimStart(s) == s
  {
    assert FirstNonSpace(s, 0) == 0;
  }

  /** A string that ends with a non-whitespace character loses nothing at the back. */
  lemma TrimEndKeeps(s: string)
    requires |s| == 0 || !IsSpace(s[|s| - 1])
    ensures TrimEnd(s) == s
  {
    assert EndOfNonSpace(s, |s|) == |s|;
  }

  /** One leading space goes when the next character is not whitespace. */
  lemma TrimStartOneSpace(x: string)
    requires |x| > 0 && !IsSpace(x[0])
    ensures TrimStart(" " + x) == x
  {
    var t := " " + x;
    assert t[1] == x[0];
    assert FirstNonSpace(t, 1) == 1;
    assert FirstNonSpace(t, 0) == 1;
    assert t[1..] == x;
  }

  /** One trailing space goes when the character before it is not whitespace. */
  lemma TrimEndOneSpace(x: string)
    requires |x| > 0 && !IsSpace(x[|x| - 1])
    ensures TrimEnd(x + " ") == x
  {
    var t := x + " ";
    assert t[|x| - 1] == x[|x| - 1];
    assert EndOfNonSpace(t, |x|) == |x|;
    assert EndOfNonSpace(t, |t|) == |x|;
    assert t[..|x|] == x;
  }

  /** Strip keeps a contiguous middle part of `s`, removes only whitespace, and leaves
      neither leading nor trailing whitespace; stripping again changes nothing. */
  lemma StripSpec(s: string)
    ensures var i := |s| - |TrimStart(s)|; var j := i + |Strip(s)|;
      0 <= i <= j <= |s| && Strip(s) == s[i..j] &&
      (forall k :: 0 <= k < i ==> IsSpace(s[k])) && (forall k :: j <= k < |s| ==> IsSpace(s[k]))
    ensures |Strip(s)| > 0 ==> !IsSpace(Strip(s)[0]) && !IsSpace(Strip(s)[|Strip(s)| - 1])
    ensures Strip(Strip(s)) == Strip(s)
  {
    var t := TrimStart(s);
    var r := TrimEnd(t);
    var i := |s| - |t|;
    var j := i + |r|;
    StripSlice(s, t, r, i, j);
    StripAgain(t, r);
  }

  lemma StripAgain(t: string, r: string)
    requires |t| == 0 || !IsSpace(t[0])
    requires r == TrimEnd(t)
    ensures |r| > 0 ==> !IsSpace(r[0]) && !IsSpace(r[|r| - 1])
    ensures Strip(r) == r
  {
    if |r| > 0 {
      assert r[0] == t[0];
    }
    TrimStartKeeps(r);
    TrimEndKeeps(r);
  }

  lemma StripSlice(s: string, t: string, r: string, i: nat, j: nat)
    requires t == TrimStart(s) && r == TrimEnd(t) && i == |s| - |t| && j == i + |r|
    ensures 0 <= i <= j <= |s| && r == s[i..j]
    ensures forall k :: 0 <= k < i ==> IsSpace(s[k])
    ensures forall k :: j <= k < |s| ==> IsSpace(s[k])
  {
    forall k | j <= k < |s| ensures IsSpace(s[k]) {
      assert s[k] == t[k - i];
    }
  }

  // ---------------------------------------------------------------- numbers

  /** The decimal digit for 0 <= d < 10. */
  function DigitChar(d: nat): (c: char)
    requires d < 10
    ensures '0' <= c <= '9' && (c as int) - ('0' as int) == d
  {
    ['0', '1', '2', '3', '4', '5', '6', '7', '8', '9'][d]
  }

  /** Python's `str(n)` for a natural number: decimal, no leading zeros. */
  function NatToString(n: nat): (r: string)
    ensures |r| > 0 && forall k :: 0 <= k < |r| ==> '0' <= r[k] <= '9'
    ensures |r| > 1 ==> r[0] != '0'
    decreases n
  {
    if n < 10 then [DigitChar(n)] else NatToString(n / 10) + [DigitChar(n % 10)]
  }

  /** The value of a string of decimal digits. */
  function ParseNat(s: string): nat
    requires forall k :: 0 <= k < |s| ==> '0' <= s[k] <= '9'
  {
    if |s| == 0 then 0 else ParseNat(s[..|s| - 1]) * 10 + ((s[|s| - 1] as int) - ('0' as int))
  }

  /** Reading back the rendering of `n` gives `n`. */
  lemma {:induction false} ParseNatToString(n: nat)
    ensures ParseNat(NatToString(n)) == n
    decreases n
  {
    if n >= 10 {
      ParseNatToString(n / 10);
      var s := NatToString(n);
      assert s[..|s| - 1] == NatToString(n / 10);
    }
  }

  // ---------------------------------------------------------------- repr of a string

  /** A lower-case hexadecimal digit. */
  function HexDigit(d: nat): char
    requires d < 16
  {
    "0123456789abcdef"[d]
  }

  /** The value of a lower-case hexadecimal digit (0 for anything else). */
  function HexValue(c: char): nat
  {
    if '0' <= c <= '9' then (c as int) - ('0' as int)
    else if 'a' <= c <= 'f' then (c as int) - ('a' as int) + 10
    else 0
  }

  /** 16 to the power w. */
  function Pow16(w: nat): (p: nat)
    ensures p >= 1
  {
    if w == 0 then 1 else 16 * Pow16(w - 1)
  }

  /** `n` written with exactly `w` lower-case hexadecimal digits (its last `w` digits). */
  function HexDigits(n: nat, w: nat): (r: string)
    ensures |r| == w
  {
    if w == 0 then "" else HexDigits(n / 16, w - 1) + [HexDigit(n % 16)]
  }

  /** The value of a string of hexadecimal digits. */
  function HexNum(s: string): nat
  {
    if |s| == 0 then 0 else HexNum(s[..|s| - 1]) * 16 + HexValue(s[|s| - 1])
  }

  /** A number below 16^w reads back from its `w` digits. */
  lemma {:induction false} HexDigitsRoundTrip(n: nat, w: nat)
    requires n < Pow16(w)
    ensures HexNum(HexDigits(n, w)) == n
  {
    if w > 0 {
      var q, d := n / 16, n % 16;
      assert q < Pow16(w - 1) by {
        assert n == 16 * q + d;
      }
      HexDigitsRoundTrip(q, w - 1);
      var r := HexDigits(n, w);
      assert r[..w - 1] == HexDigits(q, w - 1);
      assert HexValue(r[w - 1]) == d;
    }
  }

  /** The characters Python's `str.isprintable` rejects, by Unicode general category:
      control characters (Cc), format characters (Cf), private-use characters (Co), line
      and paragraph separators (Zl, Zp) and every space separator (Zs) but the ASCII space.
      Unassigned code points (Cn) are not listed. */
  predicate NonPrintable(c: char)
  {
    var n := c as int;
    // Cc
    n < 0x20 || 0x7F <= n <= 0x9F ||
    // Zs other than the space, Zl and Zp
    n == 0xA0 || n == 0x1680 || 0x2000 <= n <= 0x200A || n == 0x2028 || n == 0x2029 ||
    n == 0x202F || n == 0x205F || n == 0x3000 ||
    // Cf
    n == 0xAD || 0x600 <= n <= 0x605 || n == 0x61C || n == 0x6DD || n == 0x70F ||
    0x890 <= n <= 0x891 || n == 0x8E2 || n == 0x180E || 0x200B <= n <= 0x200F ||
    0x202A <= n <= 0x202E || 0x2060 <= n <= 0x2064 || 0x2066 <= n <= 0x206F ||
    n == 0xFEFF || 0xFFF9 <= n <= 0xFFFB || n == 0x110BD || n == 0x110CD ||
    0x13430 <= n <= 0x1343F || 0x1BCA0 <= n <= 0x1BCA3 || 0x1D173 <= n <= 0x1D17A ||
    n == 0xE0001 || 0xE0020 <= n <= 0xE007F ||
    // Co
    0xE000 <= n <= 0xF8FF || 0xF0000 <= n <= 0xFFFFD || 0x100000 <= n <= 0x10FFFD
  }

  /** The hexadecimal escape Python writes for a non-printable character: `\xhh` below
      0x100, `\uhhhh` below 0x10000, `\Uhhhhhhhh` above. */
  function HexEscape(c: char): string
  {
    var n := c as int;
    if n < 0x100 then ['\\', 'x'] + HexDigits(n, 2)
    else if n < 0x10000 then ['\\', 'u'] + HexDigits(n, 4)
    else ['\\', 'U'] + HexDigits(n, 8)
  }

  /** How Python's `repr` writes one character inside quotes `q`: the quote and the
      backslash are escaped, tab, newline and carriage return get their short escapes,
      and every other non-printable character gets its hexadecimal escape. */
  function EscapeChar(c: char, q: char): string
  {
    if c == q || c == '\\' then ['\\', c]
    else if c == '\t' then ['\\', 't']
    else if c == '\n' then ['\\', 'n']
    else if c == '\r' then ['\\', 'r']
    else if NonPrintable(c) then HexEscape(c)
    else [c]
  }

  /** The characters of `s` escaped one by one. */
  function Escape(s: string, q: char): string
  {
    if |s| == 0 then "" else EscapeChar(s[0], q) + Escape(s[1..], q)
  }

  /** Python's `repr(s)`: double quotes when `s` holds a single quote and no double
      quote, single quotes otherwise. */
  function StrRepr(s: string): (r: string)
    ensures |r| >= 2 && r[0] == r[|r| - 1] && (r[0] == '\'' || r[0] == '"')
  {
    var q := if '\'' in s && '"' !in s then '"' else '\'';
    [q] + Escape(s, q) + [q]
  }

  /** True when `n` is a Unicode scalar value, that is, a `char`. */
  predicate IsScalar(n: nat)
  {
    n < 0xD800 || 0xE000 <= n < 0x11_0000
  }

  /** The character a hexadecimal escape of `w` digits at the front of `s` stands for,
      if the digits give a scalar value. */
  function HexChar(s: string, w: nat): Option<char>
    requires |s| >= w
  {
    var v := HexNum(s[..w]);
    if IsScalar(v) then Some(v as char) else None
  }

  /** Reads the escapes that EscapeChar writes. */
  function Unescape(s: string): string
    decreases |s|
  {
    if |s| == 0 then ""
    else if s[0] == '\\' && |s| >= 2 then
      if s[1] == 't' then "\t" + Unescape(s[2..])
      else if s[1] == 'n' then "\n" + Unescape(s[2..])
      else if s[1] == 'r' then "\r" + Unescape(s[2..])
      else if s[1] == 'x' && |s| >= 4 && HexChar(s[2..], 2).Some? then
        [HexChar(s[2..], 2).value] + Unescape(s[4..])
      else if s[1] == 'u' && |s| >= 6 && HexChar(s[2..], 4).Some? then
        [HexChar(s[2..], 4).value] + Unescape(s[6..])
      else if s[1] == 'U' && |s| >= 10 && HexChar(s[2..], 8).Some? then
        [HexChar(s[2..], 8).value] + Unescape(s[10..])
      else [s[1]] + Unescape(s[2..])
    else [s[0]] + Unescape(s[1..])
  }

  /** The text between the quotes of a repr, unescaped. */
  function ParseRepr(r: string): string
    requires |r| >= 2
  {
    Unescape(r[1..|r| - 1])
  }

  /** An escape of `w` digits followed by more text reads back as the character. */
  lemma HexEscapeReads(c: char, w: nat, x: char, rest: string)
    requires (c as int) < Pow16(w)
    ensures var e := ['\\', x] + HexDigits(c as int, w) + rest;
      |e| >= w + 2 && HexChar(e[2..], w) == Some(c) && e[w + 2..] == rest
  {
    var e := ['\\', x] + HexDigits(c as int, w) + rest;
    assert e[2..][..w] == HexDigits(c as int, w);
    HexDigitsRoundTrip(c as int, w);
  }

  /** A hexadecimal escape followed by more text reads back as its character. */
  lemma UnescapeHex(c: char, w: nat, x: char, rest: string)
    requires (w == 2 && x == 'x') || (w == 4 && x == 'u') || (w == 8 && x == 'U')
    requires (c as int) < Pow16(w)
    ensures Unescape(['\\', x] + HexDigits(c as int, w) + rest) == [c] + Unescape(rest)
  {
    var e := ['\\', x] + HexDigits(c as int, w) + rest;
    HexEscapeReads(c, w, x, rest);
    assert e[0] == '\\' && e[1] == x && |e| >= w + 2;
  }

  lemma UnescapeChar(c: char, q: char, rest: string)
    requires q == '\'' || q == '"'
    ensures Unescape(EscapeChar(c, q) + rest) == [c] + Unescape(rest)
  {
    var e := EscapeChar(c, q);
    var n := c as int;
    if c == q || c == '\\' || c == '\t' || c == '\n' || c == '\r' {
      assert |e| == 2 && e[0] == '\\';
      assert (e + rest)[2..] == rest;
    } else if NonPrintable(c) {
      assert e == HexEscape(c);
      if n < 0x100 {
        assert Pow16(2) == 0x100;
        UnescapeHex(c, 2, 'x', rest);
      } else if n < 0x10000 {
        assert Pow16(4) == 0x10000;
        UnescapeHex(c, 4, 'u', rest);
      } else {
        assert Pow16(8) == 0x1_0000_0000;
        UnescapeHex(c, 8, 'U', rest);
      }
    } else {
      assert e == [c];
      assert (e + rest)[1..] == rest;
    }
  }

  lemma {:induction false} UnescapeEscape(s: string, q: char)
    requires q == '\'' || q == '"'
    ensures Unescape(Escape(s, q)) == s
  {
    if |s| > 0 {
      var e := Escape(s[1..], q);
      assert Escape(s, q) == EscapeChar(s[0], q) + e;
      UnescapeChar(s[0], q, e);
      UnescapeEscape(s[1..], q);
      assert s == [s[0]] + s[1..];
    }
  }

  /** repr loses nothing: the string can be read back from it. */
  lemma StrReprRoundTrip(s: string)
    ensures ParseRepr(StrRepr(s)) == s
  {
    var q := if '\'' in s && '"' !in s then '"' else '\'';
    var r := StrRepr(s);
    assert r[1..|r| - 1] == Escape(s, q);
    UnescapeEscape(s, q);
  }

  /** The repr of a one-character string that holds no quote. */
  lemma ReprOfOne(c: char)
    requires c != '\''
    ensures StrRepr([c]) == ['\''] + EscapeChar(c, '\'') + ['\'']
  {
    assert Escape([c], '\'') == EscapeChar(c, '\'') + Escape([], '\'');
  }

  /** repr escapes a no-break space as `\xa0`. */
  lemma StrReprNoBreakSpace()
    ensures StrRepr("\U{A0}") == "'\\xa0'"
  {
    ReprOfOne('\U{A0}');
    assert HexDigits(0xA, 1) == "a";
  }

  /** repr escapes a line separator as `\u2028`. */
  lemma StrReprLineSeparator()
    ensures StrRepr("\U{2028}") == "'\\u2028'"
  {
    ReprOfOne('\U{2028}');
    HexDigitsOf2028();
    assert NonPrintable('\U{2028}');
  }

  /** The four digits of 0x2028. */
  lemma HexDigitsOf2028()
    ensures HexDigits(0x2028, 4) == "2028"
  {
    assert HexDigits(0x2, 1) == "2";
    assert HexDigits(0x20, 2) == "20";
    assert HexDigits(0x202, 3) == "202";
  }

  /** The eight digits of 0xF0000. */
  lemma HexDigitsOfF0000()
    ensures HexDigits(0xF0000, 8) == "000f0000"
  {
    assert HexDigits(0, 3) == "000";
    assert HexDigits(0xF, 4) == "000f";
    assert HexDigits(0xF0, 5) == "000f0";
    assert HexDigits(0xF00, 6) == "000f00";
    assert HexDigits(0xF000, 7) == "000f000";
  }

  /** repr escapes a supplementary private-use character with `\U` and eight digits. */
  lemma StrReprPrivateUse()
    ensures StrRepr("\U{F0000}") == "'\\U000f0000'"
  {
    ReprOfOne('\U{F0000}');
    HexDigitsOfF0000();
    assert NonPrintable('\U{F0000}');
  }

  // ---------------------------------------------------------------- ordering

  /** Python's `a <= b` on strings: lexicographic by code point. */
  predicate StrLe(a: string, b: string)
  {
    if |a| == 0 then true
    else if |b| == 0 then false
    else if a[0] != b[0] then a[0] < b[0]
    else StrLe(a[1..], b[1..])
  }

  lemma {:induction false} StrLeTotal(a: string, b: string)
    ensures StrLe(a, b) || StrLe(b, a)
  {
    if |a| > 0 && |b| > 0 && a[0] == b[0] { StrLeTotal(a[1..], b[1..]); }
  }

  lemma {:induction false} StrLeTrans(a: string, b: string, c: string)
    requires StrLe(a, b) && StrLe(b, c)
    ensures StrLe(a, c)
  {
    if |a| > 0 && |b| > 0 && |c| > 0 && a[0] == b[0] && b[0] == c[0] {
      StrLeTrans(a[1..], b[1..], c[1..]);
    }
  }
}
