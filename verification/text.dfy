/**
 * String primitives shared by the server (.NET) and the browser client (JavaScript):
 * the two runtimes' notions of white space, trimming, prefix and suffix tests,
 * and decimal rendering of integers.
 */
module Text {

  import opened Wrappers

  /** `Char.IsWhiteSpace` of .NET: the Unicode separators plus the C0/C1 controls it counts as space. */
  predicate IsDotNetWhiteSpace(c: char) {
    ('\U{9}' <= c <= '\U{D}') || c == ' ' || c == '\U{85}' || c == '\U{A0}' || c == '\U{1680}'
    || ('\U{2000}' <= c <= '\U{200A}') || c == '\U{2028}' || c == '\U{2029}' || c == '\U{202F}'
    || c == '\U{205F}' || c == '\U{3000}'
  }

  /** The characters JavaScript's `String.prototype.trim` removes (WhiteSpace and LineTerminator). */
  predicate IsJsWhiteSpace(c: char) {
    ('\U{9}' <= c <= '\U{D}') || c == ' ' || c == '\U{A0}' || c == '\U{1680}'
    || ('\U{2000}' <= c <= '\U{200A}') || c == '\U{2028}' || c == '\U{2029}' || c == '\U{202F}'
    || c == '\U{205F}' || c == '\U{3000}' || c == '\U{FEFF}'
  }

  /** `string.IsNullOrWhiteSpace` of .NET, with `None` standing for null. */
  predicate IsNullOrWhiteSpace(s: Option<string>) {
    s.None? || forall i :: 0 <= i < |s.value| ==> IsDotNetWhiteSpace(s.value[i])
  }

  /** True when JavaScript's `s.trim()` is the empty string, i.e. `!s.trim()` holds. */
  predicate IsBlankJs(s: string) {
    forall i :: 0 <= i < |s| ==> IsJsWhiteSpace(s[i])
  }

  /** `string.TrimStart()` of .NET: the longest suffix of `s` that does not start with white space. */
  function TrimStart(s: string): (r: string)
    ensures |r| <= |s| && r == s[|s| - |r|..]
    ensures forall i :: 0 <= i < |s| - |r| ==> IsDotNetWhiteSpace(s[i])
    ensures r != [] ==> !IsDotNetWhiteSpace(r[0])
  {
    if |s| > 0 && IsDotNetWhiteSpace(s[0]) then TrimStart(s[1..]) else s
  }

  /** `string.TrimEnd()` of .NET: the longest prefix of `s` that does not end with white space. */
  function TrimEnd(s: string): (r: string)
    ensures |r| <= |s| && r == s[..|r|]
    ensures forall i :: |r| <= i < |s| ==> IsDotNetWhiteSpace(s[i])
    ensures r != [] ==> !IsDotNetWhiteSpace(r[|r| - 1])
  {
    if |s| > 0 && IsDotNetWhiteSpace(s[|s| - 1]) then TrimEnd(s[..|s| - 1]) else s
  }

  /** `string.Trim()` of .NET: white space removed at both ends. */
  function Trim(s: string): (r: string)
    ensures r != [] ==> !IsDotNetWhiteSpace(r[0]) && !IsDotNetWhiteSpace(r[|r| - 1])
  {
    TrimEnd(TrimStart(s))
  }

  /** Appending white space does not change what `Trim` keeps. */
  lemma {:induction false} TrimIgnoresTrailingSpace(s: string, w: string)
    requires forall i :: 0 <= i < |w| ==> IsDotNetWhiteSpace(w[i])
    ensures Trim(s + w) == Trim(s)
  {
    if |w| == 0 {
      assert s + w == s;
    } else {
      var s' := s + w[..|w| - 1];
      assert s + w == s' + [w[|w| - 1]];
      TrimIgnoresTrailingSpace(s, w[..|w| - 1]);
      TrimEndOneSpace(s', w[|w| - 1]);
    }
  }

  /** Helper: trimming `s + [c]` for a white-space `c` is trimming `s`. */
  lemma TrimEndOneSpace(s: string, c: char)
    requires IsDotNetWhiteSpace(c)
    ensures Trim(s + [c]) == Trim(s)
  {
    var t := TrimStart(s);
    if |t| == 0 {
      // s is all white space, so is s + [c]
      assert forall i :: 0 <= i < |s + [c]| ==> IsDotNetWhiteSpace((s + [c])[i]);
      AllSpaceTrimStart(s + [c]);
    } else {
      assert t + [c] == (s + [c])[|s| - |t|..];
      TrimStartKeepsSuffix(s, c);
      assert (t + [c])[..|t + [c]| - 1] == t;
    }
  }

  /** Helper: a string made of white space trims (at the start) to nothing. */
  lemma {:induction false} AllSpaceTrimStart(s: string)
    requires forall i :: 0 <= i < |s| ==> IsDotNetWhiteSpace(s[i])
    ensures TrimStart(s) == []
  {
    if |s| > 0 {
      AllSpaceTrimStart(s[1..]);
    }
  }

  /** Helper: once `s` has a non-space character, `TrimStart` of `s + [c]` keeps the same start. */
  lemma {:induction false} TrimStartKeepsSuffix(s: string, c: char)
    requires TrimStart(s) != []
    ensures TrimStart(s + [c]) == TrimStart(s) + [c]
  {
    if |s| > 0 && IsDotNetWhiteSpace(s[0]) {
      assert (s + [c])[1..] == s[1..] + [c];
      TrimStartKeepsSuffix(s[1..], c);
    }
  }

  /** The concatenation of `parts`, in order (a `StringBuilder` fed part by part). */
  function Concat(parts: seq<string>): string {
    if parts == [] then "" else Concat(parts[..|parts| - 1]) + parts[|parts| - 1]
  }

  /** Ordinal `StartsWith`. */
  predicate StartsWith(s: string, prefix: string) {
    |prefix| <= |s| && s[..|prefix|] == prefix
  }

  /** Ordinal `EndsWith`. */
  predicate EndsWith(s: string, suffix: string) {
    |suffix| <= |s| && s[|s| - |suffix|..] == suffix
  }

  /** The position of the first `c` in `s` (`IndexOf(char)`), or `|s|` when there is none. */
  function IndexOfChar(s: string, c: char): (r: nat)
    ensures r <= |s|
    ensures r < |s| ==> s[r] == c
    ensures forall i :: 0 <= i < r ==> s[i] != c
  {
    if |s| == 0 then 0 else if s[0] == c then 0 else 1 + IndexOfChar(s[1..], c)
  }

  function DigitChar(d: nat): char
    requires d < 10
  {
    "0123456789"[d]
  }

  predicate IsDigit(c: char) {
    '0' <= c <= '9'
  }

  /** Decimal digits of a natural number, most significant first, without leading zeros. */
  function Digits(n: nat): (r: string)
    ensures r != [] && forall i :: 0 <= i < |r| ==> IsDigit(r[i])
    ensures |r| > 1 ==> r[0] != '0'
  {
    if n < 10 then [DigitChar(n)] else Digits(n / 10) + [DigitChar(n % 10)]
  }

  /** The invariant-culture rendering of an integer: an optional minus sign and its digits. */
  function IntToString(n: int): (r: string)
    ensures r != []
    ensures n < 0 <==> r[0] == '-'
  {
    if n < 0 then "-" + Digits(-n) else Digits(n)
  }
}
