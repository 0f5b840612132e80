/**
 * String operations the application performs with JavaScript's `String`
 * methods and regular expressions, written out over `seq<char>`.
 */
module Text {

  /** JavaScript's `a || b` on two strings: the empty string is the only falsy
      string, and an absent property is modelled as the empty string too. */
  function Or(a: string, b: string): (r: string)
    ensures a != "" ==> r == a
    ensures a == "" ==> r == b
  {
    if a != "" then a else b
  }

  // ---------------------------------------------------------------------------
  // Leading slashes

  /** `s.replace(/^\//, "")`: removes one leading '/', if there is one. */
  function StripOneSlash(s: string): (r: string)
    ensures |s| - 1 <= |r| <= |s| && r == s[|s| - |r|..]
    ensures |r| < |s| <==> |s| > 0 && s[0] == '/'
  {
    if |s| > 0 && s[0] == '/' then s[1..] else s
  }

  /** `s.replace(/^\/+/, "")`: removes the whole run of leading '/'. */
  function StripSlashes(s: string): string
    decreases |s|
  {
    if |s| > 0 && s[0] == '/' then StripSlashes(s[1..]) else s
  }

  /** What is stripped is a run of '/' at the front, and what is left is the
      rest of the string, which does not start with '/'. */
  lemma {:induction false} StripSlashesSpec(s: string)
    ensures var r := StripSlashes(s);
      && |r| <= |s| && r == s[|s| - |r|..]
      && (forall i :: 0 <= i < |s| - |r| ==> s[i] == '/')
      && (|r| > 0 ==> r[0] != '/')
    decreases |s|
  {
    if |s| > 0 && s[0] == '/' {
      StripSlashesSpec(s[1..]);
    }
  }

  /** Stripping one slash from "//x" leaves "/x": the single-slash pattern does
      not remove a second leading slash. */
  lemma StripOneSlashLeavesSecond(x: string)
    ensures StripOneSlash("//" + x) == "/" + x
    ensures StripOneSlash("/" + x) == x
  {
    assert ("//" + x)[1..] == "/" + x;
    assert ("/" + x)[1..] == x;
  }

  /** However many slashes lead, stripping them all gives the same string as
      stripping the slashes of the rest. */
  lemma {:induction false} StripSlashesOfSlashes(n: nat, x: string)
    ensures StripSlashes(Slashes(n) + x) == StripSlashes(x)
    decreases n
  {
    if n > 0 {
      var y := Slashes(n - 1) + x;
      SlashesCons(n, x);
      StripLeadingSlash(y);
      StripSlashesOfSlashes(n - 1, x);
    } else {
      SlashesZero(x);
    }
  }

  lemma SlashesZero(x: string)
    ensures Slashes(0) + x == x
  {
    assert Slashes(0) == "";
  }

  lemma SlashesCons(n: nat, x: string)
    requires n > 0
    ensures Slashes(n) + x == "/" + (Slashes(n - 1) + x)
  {
    assert Slashes(n) == "/" + Slashes(n - 1);
  }

  lemma StripLeadingSlash(y: string)
    ensures StripSlashes("/" + y) == StripSlashes(y)
  {
    assert ("/" + y)[1..] == y;
  }

  /** Stripping all leading slashes is idempotent. */
  lemma {:induction false} StripSlashesIdempotent(s: string)
    ensures StripSlashes(StripSlashes(s)) == StripSlashes(s)
  {
    StripSlashesSpec(s);
  }

  /** `n` slashes. */
  function Slashes(n: nat): (r: string)
    ensures |r| == n
  {
    if n == 0 then "" else "/" + Slashes(n - 1)
  }

  // ---------------------------------------------------------------------------
  // Substrings

  /** `p` occurs in `s` at position `i`. */
  predicate OccursAt(s: string, p: string, i: int) {
    0 <= i && i + |p| <= |s| && s[i..i + |p|] == p
  }

  /** The first position at or after `k` where `p` occurs in `s`, or -1. */
  function IndexOfFrom(s: string, p: string, k: nat): (r: int)
    ensures r == -1 || (k <= r && OccursAt(s, p, r))
    ensures r == -1 ==> forall j :: k <= j ==> !OccursAt(s, p, j)
    ensures r != -1 ==> forall j :: k <= j < r ==> !OccursAt(s, p, j)
    decreases |s| - k
  {
    if k + |p| > |s| then -1
    else if s[k..k + |p|] == p then k
    else IndexOfFrom(s, p, k + 1)
  }

  /** `s.indexOf(p)`: the first position where `p` occurs, or -1. */
  function IndexOf(s: string, p: string): (r: int)
    ensures r == -1 <==> forall j :: !OccursAt(s, p, j)
    ensures r != -1 ==> OccursAt(s, p, r) && forall j :: 0 <= j < r ==> !OccursAt(s, p, j)
  {
    IndexOfFrom(s, p, 0)
  }

  /** `s.includes(p)`. */
  predicate Contains(s: string, p: string) {
    IndexOf(s, p) != -1
  }

  /** A string none of whose characters is the first character of `p` does
      not contain `p`. */
  lemma LacksFirstChar(s: string, p: string)
    requires |p| > 0 && forall i :: 0 <= i < |s| ==> s[i] != p[0]
    ensures !Contains(s, p)
  {
    forall j | 0 <= j
      ensures !OccursAt(s, p, j)
    {
      if j + |p| <= |s| {
        assert s[j..j + |p|][0] == s[j];
      }
    }
  }

  /** `s.replace(p, "")` with a string pattern: only the FIRST occurrence of
      `p` is removed. */
  function RemoveFirst(s: string, p: string): (r: string)
    ensures !Contains(s, p) ==> r == s
    ensures Contains(s, p) ==> |r| == |s| - |p|
    ensures Contains(s, p) ==> r == s[..IndexOf(s, p)] + s[IndexOf(s, p) + |p|..]
  {
    var i := IndexOf(s, p);
    if i == -1 then s else s[..i] + s[i + |p|..]
  }

  /** Removing a pattern that the string starts with leaves the rest, even if
      the rest contains the pattern again. */
  lemma RemoveFirstOfPrefixed(p: string, x: string)
    ensures RemoveFirst(p + x, p) == x
  {
    assert OccursAt(p + x, p, 0) by { assert (p + x)[0..|p|] == p; }
    assert (p + x)[|p|..] == x;
  }

  /** `s.replace(/^p/, rep)` with a literal anchored pattern: a leading `p` is
      replaced by `rep`; any other string is returned unchanged. */
  function ReplacePrefix(s: string, p: string, rep: string): string {
    if |p| <= |s| && s[..|p|] == p then rep + s[|p|..] else s
  }

  /** A leading `p` is replaced and what follows it is kept as it is. */
  lemma ReplacePrefixOfPrefixed(p: string, rep: string, x: string)
    ensures ReplacePrefix(p + x, p, rep) == rep + x
  {
    assert (p + x)[..|p|] == p;
    assert (p + x)[|p|..] == x;
  }

  /** A string that does not start with `p` is left alone, wherever else `p`
      occurs in it. */
  lemma ReplacePrefixOfOther(s: string, p: string, rep: string)
    requires !(|p| <= |s| && s[..|p|] == p)
    ensures ReplacePrefix(s, p, rep) == s
  {
  }

  /** When `p` leads `p + q`, a string starting with `p + q` loses only the
      `p`. */
  lemma ReplacePrefixOfLonger(p: string, q: string, rep: string, x: string)
    ensures ReplacePrefix((p + q) + x, p, rep) == rep + (q + x)
  {
    assert (p + q) + x == p + (q + x);
    ReplacePrefixOfPrefixed(p, rep, q + x);
  }

  // ---------------------------------------------------------------------------
  // Case and whitespace

  /** `toLowerCase` restricted to ASCII letters. */
  function LowerChar(c: char): char {
    if 'A' <= c <= 'Z' then (c as int - 'A' as int + 'a' as int) as char else c
  }

  function ToLower(s: string): (r: string)
    ensures |r| == |s| && forall i :: 0 <= i < |s| ==> r[i] == LowerChar(s[i])
  {
    seq(|s|, i requires 0 <= i < |s| => LowerChar(s[i]))
  }

  /** Lower-casing twice is lower-casing once. */
  lemma ToLowerIdempotent(s: string)
    ensures ToLower(ToLower(s)) == ToLower(s)
  {
    assert forall i :: 0 <= i < |s| ==> LowerChar(LowerChar(s[i])) == LowerChar(s[i]);
  }

  /** The characters `String.prototype.trim` removes: ECMAScript WhiteSpace
      (tab, vertical tab, form feed, space, no-break space, byte order mark and
      the space separators) and LineTerminator (LF, CR, LS, PS). */
  predicate IsWhitespace(c: char) {
    var n := c as int;
    n == 0x09 || n == 0x0B || n == 0x0C || n == 0x20 || n == 0xA0 || n == 0xFEFF ||
    n == 0x1680 || (0x2000 <= n <= 0x200A) || n == 0x202F || n == 0x205F || n == 0x3000 ||
    n == 0x0A || n == 0x0D || n == 0x2028 || n == 0x2029
  }

  function TrimStart(s: string): string
    decreases |s|
  {
    if |s| > 0 && IsWhitespace(s[0]) then TrimStart(s[1..]) else s
  }

  function TrimEnd(s: string): string
    decreases |s|
  {
    if |s| > 0 && IsWhitespace(s[|s| - 1]) then TrimEnd(s[..|s| - 1]) else s
  }

  /** `s.trim()`. */
  function Trim(s: string): string {
    TrimEnd(TrimStart(s))
  }

  /** Every character is whitespace. */
  predicate Blank(s: string) {
    forall i :: 0 <= i < |s| ==> IsWhitespace(s[i])
  }

  /** Trimming the front leaves a suffix that is empty exactly when the
      string is blank, and otherwise starts with a non-whitespace character. */
  lemma {:induction false} TrimStartSpec(s: string)
    ensures var r := TrimStart(s);
      && (r == "" <==> Blank(s))
      && (r != "" ==> !IsWhitespace(r[0]))
    decreases |s|
  {
    if |s| > 0 && IsWhitespace(s[0]) {
      TrimStartSpec(s[1..]);
      assert Blank(s) <==> Blank(s[1..]) by {
        if Blank(s[1..]) {
          forall i | 0 <= i < |s| ensures IsWhitespace(s[i]) {
            if i > 0 { assert s[i] == s[1..][i - 1]; }
          }
        }
      }
    }
  }

  /** Trimming the back of a string that starts with a non-whitespace
      character leaves it non-empty. */
  lemma {:induction false} TrimEndKeepsFirst(s: string)
    requires s != "" && !IsWhitespace(s[0])
    ensures TrimEnd(s) != ""
    decreases |s|
  {
    if IsWhitespace(s[|s| - 1]) {
      TrimEndKeepsFirst(s[..|s| - 1]);
    }
  }

  /** A string trims to the empty string exactly when every character of it
      is whitespace. */
  lemma TrimEmptyIffBlank(s: string)
    ensures Trim(s) == "" <==> Blank(s)
  {
    TrimStartSpec(s);
    if TrimStart(s) != "" {
      TrimEndKeepsFirst(TrimStart(s));
    }
  }

  // ---------------------------------------------------------------------------
  // Decimal digits

  predicate IsDigit(c: char) {
    '0' <= c <= '9'
  }

  /** `s.replace(/[^0-9]/g, '')`: the ASCII digits of `s`, in order. */
  function Digits(s: string): (r: string)
    ensures |r| <= |s|
    ensures forall i :: 0 <= i < |r| ==> IsDigit(r[i])
    ensures r == "" <==> forall i :: 0 <= i < |s| ==> !IsDigit(s[i])
    decreases |s|
  {
    if s == [] then []
    else (if IsDigit(s[0]) then [s[0]] else []) + Digits(s[1..])
  }

  /** A string without digits has no digits to keep. */
  lemma NoDigits(s: string)
    requires forall i :: 0 <= i < |s| ==> !IsDigit(s[i])
    ensures Digits(s) == ""
  {
  }

  /** Two digit strings written together are a digit string. */
  lemma AllDigitsOfConcat(a: string, b: string)
    requires forall i :: 0 <= i < |a| ==> IsDigit(a[i])
    requires forall i :: 0 <= i < |b| ==> IsDigit(b[i])
    ensures forall i :: 0 <= i < |a + b| ==> IsDigit((a + b)[i])
  {
    forall i | 0 <= i < |a + b| ensures IsDigit((a + b)[i]) {
      if i < |a| {
        assert (a + b)[i] == a[i];
      } else {
        assert (a + b)[i] == b[i - |a|];
      }
    }
  }

  /** Removing the non-digits distributes over concatenation. */
  lemma {:induction false} DigitsOfConcat(a: string, b: string)
    ensures Digits(a + b) == Digits(a) + Digits(b)
    decreases |a|
  {
    if a == [] {
      assert a + b == b;
    } else {
      assert (a + b)[0] == a[0];
      assert (a + b)[1..] == a[1..] + b;
      DigitsOfConcat(a[1..], b);
    }
  }

  /** Removing the non-digits from label, digits, separator, digits leaves
      the two digit runs written together. */
  lemma DigitsOfTwoRuns(tag: string, a: string, sep: string, b: string)
    requires forall i :: 0 <= i < |tag| ==> !IsDigit(tag[i])
    requires forall i :: 0 <= i < |sep| ==> !IsDigit(sep[i])
    requires forall i :: 0 <= i < |a| ==> IsDigit(a[i])
    requires forall i :: 0 <= i < |b| ==> IsDigit(b[i])
    ensures Digits(tag + a + sep + b) == a + b
  {
    var ta, tas := tag + a, tag + a + sep;
    assert Digits(ta) == a by {
      DigitsOfConcat(tag, a);
      NoDigits(tag);
      DigitsOfDigitString(a);
      assert "" + a == a;
    }
    assert Digits(tas) == a by {
      DigitsOfConcat(ta, sep);
      NoDigits(sep);
      assert a + "" == a;
    }
    DigitsOfConcat(tas, b);
    DigitsOfDigitString(b);
  }

  function DigitValue(c: char): nat
    requires IsDigit(c)
  {
    c as int - '0' as int
  }

  function DigitChar(d: nat): (c: char)
    requires d < 10
    ensures IsDigit(c) && DigitValue(c) == d
  {
    ('0' as int + d) as char
  }

  /** The number a string of decimal digits spells (what `parseInt(d, 10)`
      gives for such a string; leading zeros are allowed). */
  function DecimalValue(d: string): nat
    requires forall i :: 0 <= i < |d| ==> IsDigit(d[i])
    decreases |d|
  {
    if d == [] then 0 else DecimalValue(d[..|d| - 1]) * 10 + DigitValue(d[|d| - 1])
  }

  function Pow10(k: nat): (r: nat)
    ensures r > 0
  {
    if k == 0 then 1 else 10 * Pow10(k - 1)
  }

  lemma Regroup(x: int, p: int, y: int, d: int)
    ensures (x * p + y) * 10 + d == x * (10 * p) + (y * 10 + d)
  {
  }

  /** The value of two digit strings written together. */
  lemma {:induction false} DecimalValueConcat(a: string, b: string)
    requires forall i :: 0 <= i < |a| ==> IsDigit(a[i])
    requires forall i :: 0 <= i < |b| ==> IsDigit(b[i])
    ensures DecimalValue(a + b) == DecimalValue(a) * Pow10(|b|) + DecimalValue(b)
    decreases |b|
  {
    if b == [] {
      assert a + b == a;
    } else {
      var ab, b' := a + b, b[..|b| - 1];
      assert ab[..|ab| - 1] == a + b';
      assert ab[|ab| - 1] == b[|b| - 1];
      DecimalValueConcat(a, b');
      Regroup(DecimalValue(a), Pow10(|b'|), DecimalValue(b'), DigitValue(b[|b| - 1]));
    }
  }

  /** The decimal rendering of `n` (`${n}` in a template literal). */
  function Decimal(n: nat): (r: string)
    ensures |r| > 0 && forall i :: 0 <= i < |r| ==> IsDigit(r[i])
  {
    if n < 10 then [DigitChar(n)] else Decimal(n / 10) + [DigitChar(n % 10)]
  }

  /** Reading back a rendered number gives the number. */
  lemma {:induction false} DecimalRoundTrip(n: nat)
    ensures DecimalValue(Decimal(n)) == n
  {
    if n >= 10 {
      var d := Decimal(n);
      assert d[..|d| - 1] == Decimal(n / 10);
      DecimalRoundTrip(n / 10);
    }
  }

  /** A string of digits keeps all of its characters under `Digits`. */
  lemma {:induction false} DigitsOfDigitString(d: string)
    requires forall i :: 0 <= i < |d| ==> IsDigit(d[i])
    ensures Digits(d) == d
    decreases |d|
  {
    if d != [] {
      DigitsOfDigitString(d[1..]);
      assert d == [d[0]] + d[1..];
    }
  }
}
