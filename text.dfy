/**
 * String helpers with JavaScript's meaning: the white-space class used by
 * `\s` and `String.prototype.trim`, ASCII case mapping, decimal rendering and
 * parsing, substring search, first-occurrence replacement and the global
 * case-insensitive replacement a `/pattern/gi` literal performs.
 */
module Text {
  import opened Wrappers

  // ---------------------------------------------------------------------
  // White space and trimming
  // ---------------------------------------------------------------------

  /** The characters JavaScript's `\s` class and `trim` treat as white space. */
  predicate IsJsSpace(c: char)
  {
    var n := c as int;
    n == 0x09 || n == 0x0A || n == 0x0B || n == 0x0C || n == 0x0D || n == 0x20 ||
    n == 0xA0 || n == 0x1680 || (0x2000 <= n <= 0x200A) || n == 0x2028 ||
    n == 0x2029 || n == 0x202F || n == 0x205F || n == 0x3000 || n == 0xFEFF
  }

  /** `trimStart`: the suffix left after dropping leading white space. */
  function TrimStart(s: string): (r: string)
    ensures |r| <= |s| && r == s[|s| - |r|..]
    ensures r == [] || !IsJsSpace(r[0])
  {
    if s != [] && IsJsSpace(s[0]) then TrimStart(s[1..]) else s
  }

  /** `trimStart` removes white space only. */
  lemma {:induction false} TrimStartDropsSpace(s: string)
    ensures forall i :: 0 <= i < |s| - |TrimStart(s)| ==> IsJsSpace(s[i])
  {
    if s != [] && IsJsSpace(s[0]) {
      TrimStartDropsSpace(s[1..]);
    }
  }

  /** `trimEnd`: the prefix left after dropping trailing white space. */
  function TrimEnd(s: string): (r: string)
    ensures |r| <= |s| && r == s[..|r|]
    ensures r == [] || !IsJsSpace(r[|r| - 1])
  {
    if s != [] && IsJsSpace(s[|s| - 1]) then TrimEnd(s[..|s| - 1]) else s
  }

  /** `trimEnd` removes white space only. */
  lemma {:induction false} TrimEndDropsSpace(s: string)
    ensures forall i :: |TrimEnd(s)| <= i < |s| ==> IsJsSpace(s[i])
  {
    if s != [] && IsJsSpace(s[|s| - 1]) {
      TrimEndDropsSpace(s[..|s| - 1]);
    }
  }

  /** `trim`: a contiguous slice of `s` with no white space at either end. */
  function Trim(s: string): (r: string)
    ensures |r| <= |s|
    ensures r == [] || (!IsJsSpace(r[0]) && !IsJsSpace(r[|r| - 1]))
    ensures s == [] || (!IsJsSpace(s[0]) && !IsJsSpace(s[|s| - 1])) ==> r == s
  {
    TrimEnd(TrimStart(s))
  }

  // ---------------------------------------------------------------------
  // ASCII case mapping (what `toLowerCase`, `toUpperCase` and the `i` flag
  // do on the ASCII letters the model's patterns use)
  // ---------------------------------------------------------------------

  function LowerAscii(c: char): char
  {
    if 'A' <= c <= 'Z' then (c as int + 32) as char else c
  }

  function UpperAscii(c: char): char
  {
    if 'a' <= c <= 'z' then (c as int - 32) as char else c
  }

  function ToLowerAscii(s: string): (r: string)
    ensures |r| == |s|
    ensures forall i :: 0 <= i < |s| ==> r[i] == LowerAscii(s[i])
  {
    seq(|s|, i requires 0 <= i < |s| => LowerAscii(s[i]))
  }

  // ---------------------------------------------------------------------
  // Decimal numerals
  // ---------------------------------------------------------------------

  predicate IsDigit(c: char)
  {
    '0' <= c <= '9'
  }

  function DigitChar(d: nat): (c: char)
    requires d < 10
    ensures IsDigit(c)
  {
    ('0' as int + d) as char
  }

  /** The value of a decimal digit; other characters count as zero. */
  function DigitValue(c: char): nat
  {
    if IsDigit(c) then c as int - '0' as int else 0
  }

  /** The decimal rendering of a natural number, as template literals give it. */
  function NatToString(n: nat): (r: string)
    ensures |r| >= 1
    ensures forall i :: 0 <= i < |r| ==> IsDigit(r[i])
    decreases n
  {
    if n < 10 then [DigitChar(n)] else NatToString(n / 10) + [DigitChar(n % 10)]
  }

  /** The decimal rendering of an integer, as `String(n)` gives it. */
  function IntToString(n: int): (r: string)
    ensures |r| >= 1
    ensures (r[0] == '-') <==> n < 0
  {
    if n < 0 then "-" + NatToString(-n) else NatToString(n)
  }

  /** The value of a string of decimal digits (most significant first). */
  function ParseNat(s: string): nat
    decreases |s|
  {
    if s == [] then 0 else ParseNat(s[..|s| - 1]) * 10 + DigitValue(s[|s| - 1])
  }

  /** Reading back a rendered natural number gives the number. */
  lemma {:induction false} ParseNatToString(n: nat)
    ensures ParseNat(NatToString(n)) == n
    decreases n
  {
    var r := NatToString(n);
    if n >= 10 {
      ParseNatToString(n / 10);
      assert r[..|r| - 1] == NatToString(n / 10);
    }
  }

  /** Leading zeros do not change the value of a numeral. */
  lemma {:induction false} ParseNatLeadingZeros(z: string, s: string)
    requires forall i :: 0 <= i < |z| ==> z[i] == '0'
    ensures ParseNat(z + s) == ParseNat(s)
    decreases |s|
  {
    if s == [] {
      ParseNatZeros(z);
      assert z + s == z;
    } else {
      var s' := s[..|s| - 1];
      assert (z + s)[..|z + s| - 1] == z + s';
      ParseNatLeadingZeros(z, s');
    }
  }

  lemma {:induction false} ParseNatZeros(z: string)
    requires forall i :: 0 <= i < |z| ==> z[i] == '0'
    ensures ParseNat(z) == 0
    decreases |z|
  {
    if z != [] {
      ParseNatZeros(z[..|z| - 1]);
    }
  }

  /** `s.padStart(width, fill)` for a one-character fill. */
  function PadStart(s: string, width: nat, fill: char): (r: string)
    ensures |r| == if |s| >= width then |s| else width
    ensures r[|r| - |s|..] == s
    ensures forall i :: 0 <= i < |r| - |s| ==> r[i] == fill
  {
    if |s| >= width then s else seq(width - |s|, _ => fill) + s
  }

  // ---------------------------------------------------------------------
  // Splitting
  // ---------------------------------------------------------------------

  /** `s.split(sep)` for a one-character separator. */
  function Split(s: string, sep: char): (r: seq<string>)
    ensures |r| >= 1
    decreases |s|
  {
    if s == [] then [""]
    else if s[0] == sep then [""] + Split(s[1..], sep)
    else
      var rest := Split(s[1..], sep);
      [[s[0]] + rest[0]] + rest[1..]
  }

  lemma {:induction false} SplitNoSeparator(a: string, sep: char)
    requires sep !in a
    ensures Split(a, sep) == [a]
    decreases |a|
  {
    if a != [] {
      SplitNoSeparator(a[1..], sep);
      assert [a[0]] + a[1..] == a;
    }
  }

  /** A separator-free field followed by the separator is split off whole. */
  lemma {:induction false} SplitField(a: string, sep: char, b: string)
    requires sep !in a
    ensures Split(a + [sep] + b, sep) == [a] + Split(b, sep)
    decreases |a|
  {
    var s := a + [sep] + b;
    if a == [] {
      assert s[1..] == b;
    } else {
      assert s[1..] == a[1..] + [sep] + b;
      SplitField(a[1..], sep, b);
      assert [a[0]] + a[1..] == a;
    }
  }

  // ---------------------------------------------------------------------
  // Searching and replacing
  // ---------------------------------------------------------------------

  /** `pat` occurs in `s` at index `i`. */
  predicate MatchAt(s: string, i: int, pat: string)
  {
    0 <= i && i + |pat| <= |s| && s[i..i + |pat|] == pat
  }

  /** `s.includes(pat)`. */
  predicate Contains(s: string, pat: string)
  {
    exists i :: 0 <= i <= |s| && MatchAt(s, i, pat)
  }

  /** `pat` occurs at index `i` when ASCII case is ignored. */
  predicate MatchAtIgnoreCase(s: string, i: int, pat: string)
  {
    0 <= i && i + |pat| <= |s| &&
    forall j :: 0 <= j < |pat| ==> LowerAscii(s[i + j]) == LowerAscii(pat[j])
  }

  /** A pattern matches at the front of `[c] + s` when c matches its first character and s the rest. */
  lemma MatchAtCons(c: char, s: string, pat: string)
    requires pat != []
    ensures MatchAtIgnoreCase([c] + s, 0, pat) <==>
      LowerAscii(c) == LowerAscii(pat[0]) && MatchAtIgnoreCase(s, 0, pat[1..])
  {
    var cs := [c] + s;
    if LowerAscii(c) == LowerAscii(pat[0]) && MatchAtIgnoreCase(s, 0, pat[1..]) {
      forall j | 0 <= j < |pat| ensures LowerAscii(cs[j]) == LowerAscii(pat[j]) {
        if j > 0 {
          assert cs[j] == s[j - 1] && pat[j] == pat[1..][j - 1];
        }
      }
    }
    if MatchAtIgnoreCase(cs, 0, pat) {
      forall j | 0 <= j < |pat| - 1 ensures LowerAscii(s[j]) == LowerAscii(pat[1..][j]) {
        assert s[j] == cs[j + 1] && pat[1..][j] == pat[j + 1];
      }
    }
  }

  /** `/pat/i.test(s)` for a pattern made of literal characters. */
  predicate ContainsIgnoreCase(s: string, pat: string)
  {
    exists i :: 0 <= i <= |s| && MatchAtIgnoreCase(s, i, pat)
  }

  /** The first index at or after `from` where `pat` occurs. */
  function IndexOfFrom(s: string, pat: string, from: nat): (r: Option<nat>)
    ensures r.Some? ==> from <= r.value && MatchAt(s, r.value, pat)
    ensures r.Some? ==> forall j :: from <= j < r.value ==> !MatchAt(s, j, pat)
    ensures r.None? ==> forall j :: from <= j ==> !MatchAt(s, j, pat)
    decreases |s| - from
  {
    if from + |pat| > |s| then None
    else if MatchAt(s, from, pat) then Some(from)
    else IndexOfFrom(s, pat, from + 1)
  }

  /** `s.indexOf(pat)`, with -1 as `None`. */
  function IndexOf(s: string, pat: string): Option<nat>
  {
    IndexOfFrom(s, pat, 0)
  }

  /** `s.replace(pat, rep)` for a string pattern: only the first occurrence changes. */
  function ReplaceFirst(s: string, pat: string, rep: string): (r: string)
    ensures IndexOf(s, pat).None? ==> r == s
    ensures IndexOf(s, pat).Some? ==>
      var i := IndexOf(s, pat).value;
      r == s[..i] + rep + s[i + |pat|..]
  {
    match IndexOf(s, pat)
    case None => s
    case Some(i) => s[..i] + rep + s[i + |pat|..]
  }

  /**
   * `s.replace(/pat/gi, rep)` for a pattern of literal characters: scanning
   * left to right, every non-overlapping occurrence is replaced.
   */
  function ReplaceAllIgnoreCase(s: string, pat: string, rep: string): string
    requires pat != []
    decreases |s|
  {
    if |s| < |pat| then s
    else if MatchAtIgnoreCase(s, 0, pat) then rep + ReplaceAllIgnoreCase(s[|pat|..], pat, rep)
    else [s[0]] + ReplaceAllIgnoreCase(s[1..], pat, rep)
  }

  // ---------------------------------------------------------------------
  // UTF-16 view of a string
  // ---------------------------------------------------------------------

  /** The number of UTF-16 code units of a character. */
  function Utf16Units(c: char): nat
  {
    if c as int >= 0x1_0000 then 2 else 1
  }

  /** `s.length`: the number of UTF-16 code units. */
  function Utf16Length(s: string): (n: nat)
    ensures |s| <= n <= 2 * |s|
  {
    if s == [] then 0 else Utf16Units(s[0]) + Utf16Length(s[1..])
  }

  /** `s.charCodeAt(0)` for a non-empty string: the first UTF-16 code unit. */
  function FirstCodeUnit(s: string): (u: nat)
    requires s != []
    ensures u < 0x1_0000
  {
    var n := s[0] as int;
    if n >= 0x1_0000 then 0xD800 + (n - 0x1_0000) / 0x400 else n
  }
}
