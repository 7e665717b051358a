/** The few PHP and WordPress string and integer helpers the endpoints rely on:
    `(int)` of a digit string, integer-to-string conversion, truthiness of strings,
    `absint`, ASCII case mapping, `sanitize_key`, SQL `LIKE 'prefix%'`, substring
    search, MySQL `REPLACE()` and byte-wise string order. */
module PhpString {

  // ---------------------------------------------------------------- digits

  predicate IsDigit(c: char) { '0' <= c <= '9' }

  predicate AllDigits(s: string) { forall i :: 0 <= i < |s| ==> IsDigit(s[i]) }

  function DigitChar(d: nat): (c: char)
    requires d < 10
    ensures IsDigit(c)
  {
    ('0' as int + d) as char
  }

  /** The value of a string of decimal digits (leading zeros allowed). */
  function DigitsValue(s: string): nat
    requires AllDigits(s)
  {
    if s == [] then 0 else DigitsValue(s[..|s| - 1]) * 10 + (s[|s| - 1] as int - '0' as int)
  }

  /** `PHP_INT_MAX` on a 64-bit build. */
  const PhpIntMax: nat := 0x7FFF_FFFF_FFFF_FFFF

  /** `(int)` of a string of decimal digits: its value, saturated at `PHP_INT_MAX`. */
  function DigitsToInt(s: string): (n: nat)
    requires AllDigits(s)
    ensures n <= PhpIntMax
    ensures DigitsValue(s) <= PhpIntMax ==> n == DigitsValue(s)
    ensures DigitsValue(s) > PhpIntMax ==> n == PhpIntMax
  {
    var v := DigitsValue(s);
    if v > PhpIntMax then PhpIntMax else v
  }

  /** PHP's decimal rendering of a non-negative integer; `(int)` reads it back. */
  function NatToString(n: nat): (s: string)
    ensures s != [] && AllDigits(s) && '-' !in s
    ensures DigitsValue(s) == n
    decreases n
  {
    if n < 10 then [DigitChar(n)]
    else
      var prefix := NatToString(n / 10);
      var s := prefix + [DigitChar(n % 10)];
      assert s[..|s| - 1] == prefix;
      s
  }

  /** PHP's decimal rendering of any integer. */
  function IntToString(i: int): (s: string)
    ensures i >= 0 ==> s == NatToString(i)
    ensures i < 0 ==> s == "-" + NatToString(-i)
  {
    if i < 0 then "-" + NatToString(-i) else NatToString(i)
  }

  // ---------------------------------------------------------- truthiness

  /** A string PHP treats as false (`empty($s)`, `!$s`): the empty string and "0". */
  predicate FalsyString(s: string) { s == "" || s == "0" }

  /** WordPress `absint` on an integer argument. */
  function AbsInt(x: int): (n: nat)
    ensures n == x || n == -x
  {
    if x < 0 then -x else x
  }

  // ---------------------------------------------------------- ASCII case

  function LowerChar(c: char): char
  {
    if 'A' <= c <= 'Z' then (c as int + 32) as char else c
  }

  function UpperChar(c: char): char
  {
    if 'a' <= c <= 'z' then (c as int - 32) as char else c
  }

  function Lower(s: string): (r: string)
    ensures |r| == |s| && forall i :: 0 <= i < |s| ==> r[i] == LowerChar(s[i])
  {
    if s == [] then [] else [LowerChar(s[0])] + Lower(s[1..])
  }

  /** `strtoupper`, which maps only the ASCII letters. */
  function Upper(s: string): (r: string)
    ensures |r| == |s| && forall i :: 0 <= i < |s| ==> r[i] == UpperChar(s[i])
  {
    if s == [] then [] else [UpperChar(s[0])] + Upper(s[1..])
  }

  // -------------------------------------------------------- sanitize_key

  predicate KeyChar(c: char) { 'a' <= c <= 'z' || '0' <= c <= '9' || c == '_' || c == '-' }

  /** `sanitize_key`: lower-case ASCII, then drop every character outside `[a-z0-9_-]`. */
  function SanitizeKey(s: string): (r: string)
    ensures |r| <= |s|
    ensures forall i :: 0 <= i < |r| ==> KeyChar(r[i])
  {
    if s == [] then []
    else
      var c := LowerChar(s[0]);
      (if KeyChar(c) then [c] else []) + SanitizeKey(s[1..])
  }

  /** A key made only of `[a-z0-9_-]` is left as it is. */
  lemma {:induction false} SanitizeKeyFixes(s: string)
    requires forall i :: 0 <= i < |s| ==> KeyChar(s[i])
    ensures SanitizeKey(s) == s
  {
    if s != [] {
      SanitizeKeyFixes(s[1..]);
      assert [s[0]] + s[1..] == s;
    }
  }

  /** Sanitizing twice is sanitizing once. */
  lemma SanitizeKeyIdempotent(s: string)
    ensures SanitizeKey(SanitizeKey(s)) == SanitizeKey(s)
  {
    SanitizeKeyFixes(SanitizeKey(s));
  }

  /** The route pattern `[a-zA-Z0-9_-]+` of the option routes. */
  predicate RouteKey(s: string)
  {
    s != [] && forall i :: 0 <= i < |s| ==> KeyChar(LowerChar(s[i]))
  }

  /** A key that passed the route pattern keeps every character through `sanitize_key`. */
  lemma {:induction false} SanitizeRouteKey(s: string)
    requires forall i :: 0 <= i < |s| ==> KeyChar(LowerChar(s[i]))
    ensures SanitizeKey(s) == Lower(s)
  {
    if s != [] {
      SanitizeRouteKey(s[1..]);
    }
  }

  // ------------------------------------------------------------- substrings

  /** `t` occurs somewhere in `s` (SQL `LIKE '%t%'` with `t` escaped by `esc_like`). */
  function Contains(s: string, t: string): bool
    decreases |s|
  {
    if |t| > |s| then false else s[..|t|] == t || Contains(s[1..], t)
  }

  /** MySQL `REPLACE(s, search, replace)`: every non-overlapping occurrence, left to right. */
  function ReplaceAll(s: string, search: string, replace: string): string
    decreases |s|
  {
    if search == [] || |s| < |search| then s
    else if s[..|search|] == search then replace + ReplaceAll(s[|search|..], search, replace)
    else [s[0]] + ReplaceAll(s[1..], search, replace)
  }

  /** A value that does not contain the search string comes back unchanged. */
  lemma {:induction false} ReplaceAllAbsent(s: string, search: string, replace: string)
    requires !Contains(s, search)
    ensures ReplaceAll(s, search, replace) == s
    decreases |s|
  {
    if search != [] && |s| >= |search| {
      ReplaceAllAbsent(s[1..], search, replace);
      assert [s[0]] + s[1..] == s;
    }
  }

  /** Replacing a string by itself changes nothing. */
  lemma {:induction false} ReplaceAllSelf(s: string, search: string)
    ensures ReplaceAll(s, search, search) == s
    decreases |s|
  {
    if search != [] && |s| >= |search| {
      if s[..|search|] == search {
        ReplaceAllSelf(s[|search|..], search);
        assert s[..|search|] + s[|search|..] == s;
      } else {
        ReplaceAllSelf(s[1..], search);
        assert [s[0]] + s[1..] == s;
      }
    }
  }

  // -------------------------------------------------------------- LIKE

  /** SQL `name LIKE 'pattern%'` for a pattern without `%` or `\`: each `_` of the
      pattern matches any one character, every other character matches itself. */
  predicate LikePrefix(pattern: string, name: string)
  {
    |pattern| <= |name| && forall i :: 0 <= i < |pattern| ==> pattern[i] == '_' || pattern[i] == name[i]
  }

  /** Every name that literally starts with the pattern matches, and so does a
      name that differs from it only where the pattern holds an `_`. */
  lemma LikePrefixWidens(pattern: string, name: string)
    ensures pattern <= name ==> LikePrefix(pattern, name)
    ensures |pattern| <= |name| && (forall i :: 0 <= i < |pattern| && pattern[i] != '_' ==> pattern[i] == name[i])
            ==> LikePrefix(pattern, name)
  {
  }

  // ----------------------------------------------------------- string order

  /** Byte-wise (binary collation) strict order on strings. */
  predicate StrLt(a: string, b: string)
    decreases |a|
  {
    if a == [] then b != []
    else if b == [] then false
    else if a[0] != b[0] then a[0] < b[0]
    else StrLt(a[1..], b[1..])
  }

  lemma {:induction false} StrLtIrreflexive(a: string)
    ensures !StrLt(a, a)
    decreases |a|
  {
    if a != [] { StrLtIrreflexive(a[1..]); }
  }

  lemma {:induction false} StrLtTransitive(a: string, b: string, c: string)
    requires StrLt(a, b) && StrLt(b, c)
    ensures StrLt(a, c)
    decreases |a|
  {
    if a != [] && b != [] && c != [] && a[0] == b[0] == c[0] {
      StrLtTransitive(a[1..], b[1..], c[1..]);
    }
  }

  lemma {:induction false} StrLtTotal(a: string, b: string)
    ensures a == b || StrLt(a, b) || StrLt(b, a)
    decreases |a|
  {
    if a != [] && b != [] && a[0] == b[0] {
      StrLtTotal(a[1..], b[1..]);
      if a[1..] == b[1..] {
        assert a == [a[0]] + a[1..] && b == [b[0]] + b[1..];
      }
    }
  }
}
