/** The .NET string primitives the application relies on: IsNullOrWhiteSpace,
    Trim, the regular-expression replacements \D and \s+, Contains,
    Split(' ', 2, RemoveEmptyEntries), int.TryParse and Int32.ToString. */
module Text {
  import opened Wrappers

  /** char.IsWhiteSpace: the Unicode separators (Zs, Zl, Zp), U+0009..U+000D and
      U+0085. The same set is what Trim removes and what the regex class \s matches. */
  predicate IsWhiteSpace(c: char) {
    || c == ' ' || ('\t' <= c <= '\r') || c == '\U{85}' || c == '\U{A0}' || c == '\U{1680}'
    || ('\U{2000}' <= c <= '\U{200A}') || c == '\U{2028}' || c == '\U{2029}'
    || c == '\U{202F}' || c == '\U{205F}' || c == '\U{3000}'
  }

  /** The ASCII decimal digits (the regex class \d restricted to '0'..'9'). */
  predicate IsDigit(c: char) {
    '0' <= c <= '9'
  }

  predicate AllDigits(s: string) {
    forall i :: 0 <= i < |s| ==> IsDigit(s[i])
  }

  /** string.IsNullOrWhiteSpace on a non-null string. */
  predicate IsBlank(s: string) {
    forall i :: 0 <= i < |s| ==> IsWhiteSpace(s[i])
  }

  /** The end of the white space that starts at index i. */
  function SkipWhiteSpace(s: string, i: nat): (n: nat)
    requires i <= |s|
    ensures i <= n <= |s|
    ensures forall j :: i <= j < n ==> IsWhiteSpace(s[j])
    ensures n < |s| ==> !IsWhiteSpace(s[n])
    decreases |s| - i
  {
    if i < |s| && IsWhiteSpace(s[i]) then SkipWhiteSpace(s, i + 1) else i
  }

  /** The start of the white space that ends at index e, going back no
      further than lo. */
  function SkipWhiteSpaceBack(s: string, lo: nat, e: nat): (n: nat)
    requires lo <= e <= |s|
    ensures lo <= n <= e
    ensures forall j :: n <= j < e ==> IsWhiteSpace(s[j])
    ensures n > lo ==> !IsWhiteSpace(s[n - 1])
    decreases e - lo
  {
    if e > lo && IsWhiteSpace(s[e - 1]) then SkipWhiteSpaceBack(s, lo, e - 1) else e
  }

  /** string.Trim(): drops white space at both ends and nothing else. */
  function Trim(s: string): (r: string)
    ensures |r| <= |s|
    ensures r == [] <==> IsBlank(s)
    ensures r != [] ==> !IsWhiteSpace(r[0]) && !IsWhiteSpace(r[|r| - 1])
    ensures exists a :: 0 <= a <= |s| - |r| && r == s[a..a + |r|] && IsBlank(s[..a]) && IsBlank(s[a + |r|..])
  {
    var a := SkipWhiteSpace(s, 0);
    var e := SkipWhiteSpaceBack(s, a, |s|);
    var r := s[a..e];
    assert IsBlank(s[..a]) by {
      forall j | 0 <= j < a ensures IsWhiteSpace(s[..a][j]) {
        assert s[..a][j] == s[j];
      }
    }
    assert IsBlank(s[e..]) by {
      forall j | 0 <= j < |s| - e ensures IsWhiteSpace(s[e..][j]) {
        assert s[e..][j] == s[e + j];
      }
    }
    if a == |s| then
      assert s[..a] == s;
      r
    else
      assert a < e;
      assert r[0] == s[a] && r[|r| - 1] == s[e - 1];
      assert !IsBlank(s) by {
        assert !IsWhiteSpace(s[a]);
      }
      r
  }

  /** Regex.Replace(s, "\\D", ""): keeps the digits, in order. */
  function DigitsOf(s: string): (r: string)
    ensures AllDigits(r)
    ensures |r| <= |s|
    ensures r == [] <==> forall i :: 0 <= i < |s| ==> !IsDigit(s[i])
  {
    if s == [] then []
    else
      var rest := DigitsOf(s[1..]);
      assert forall i :: 1 <= i < |s| ==> s[i] == s[1..][i - 1];
      if IsDigit(s[0]) then [s[0]] + rest else rest
  }

  /** Regex.Replace(s, "\\s+", ""): drops every white-space character. */
  function RemoveWhiteSpace(s: string): (r: string)
    ensures |r| <= |s|
    ensures forall i :: 0 <= i < |r| ==> !IsWhiteSpace(r[i])
    ensures forall i :: 0 <= i < |s| && !IsWhiteSpace(s[i]) ==> s[i] in r
  {
    if s == [] then []
    else
      var rest := RemoveWhiteSpace(s[1..]);
      assert forall i :: 1 <= i < |s| ==> s[i] == s[1..][i - 1];
      if IsWhiteSpace(s[0]) then rest else [s[0]] + rest
  }

  /** Removing white space never adds, drops or reorders a digit. */
  lemma {:induction false} DigitsOfRemoveWhiteSpace(s: string)
    ensures DigitsOf(RemoveWhiteSpace(s)) == DigitsOf(s)
  {
    if s != [] {
      DigitsOfRemoveWhiteSpace(s[1..]);
      if !IsWhiteSpace(s[0]) {
        assert ([s[0]] + RemoveWhiteSpace(s[1..]))[1..] == RemoveWhiteSpace(s[1..]);
      }
    }
  }

  /** A single character keeps itself exactly when it is a digit. */
  lemma DigitsOfChar(c: char)
    ensures DigitsOf([c]) == if IsDigit(c) then [c] else []
  {
    assert [c][1..] == [];
  }

  /** The digits of a concatenation are the digits of each part, in order;
      with DigitsOfChar this fixes DigitsOf on every string. */
  lemma {:induction false} DigitsOfConcat(a: string, b: string)
    ensures DigitsOf(a + b) == DigitsOf(a) + DigitsOf(b)
    decreases |a|
  {
    if a == [] {
      assert a + b == b;
    } else {
      assert (a + b)[0] == a[0];
      assert (a + b)[1..] == a[1..] + b;
      DigitsOfConcat(a[1..], b);
    }
  }

  /** A single character is dropped exactly when it is white space. */
  lemma RemoveWhiteSpaceChar(c: char)
    ensures RemoveWhiteSpace([c]) == if IsWhiteSpace(c) then [] else [c]
  {
    assert [c][1..] == [];
  }

  /** Removing white space from a concatenation removes it from each part and
      keeps their order; with RemoveWhiteSpaceChar this fixes RemoveWhiteSpace
      on every string. */
  lemma {:induction false} RemoveWhiteSpaceConcat(a: string, b: string)
    ensures RemoveWhiteSpace(a + b) == RemoveWhiteSpace(a) + RemoveWhiteSpace(b)
    decreases |a|
  {
    if a == [] {
      assert a + b == b;
    } else {
      assert (a + b)[0] == a[0];
      assert (a + b)[1..] == a[1..] + b;
      RemoveWhiteSpaceConcat(a[1..], b);
    }
  }

  /** A string of digits is its own digit subsequence. */
  lemma {:induction false} DigitsOfAllDigits(s: string)
    requires AllDigits(s)
    ensures DigitsOf(s) == s
  {
    if s != [] {
      DigitsOfAllDigits(s[1..]);
      assert [s[0]] + s[1..] == s;
    }
  }

  /** String.Contains: q occurs in s as a contiguous substring. */
  predicate Contains(s: string, q: string) {
    exists i :: 0 <= i <= |s| && q <= s[i..]
  }

  /** Number of leading ' ' characters (the separator of the name split). */
  function LeadingSpaces(s: string): (n: nat)
    ensures n <= |s|
    ensures forall i :: 0 <= i < n ==> s[i] == ' '
    ensures n < |s| ==> s[n] != ' '
  {
    if |s| > 0 && s[0] == ' ' then 1 + LeadingSpaces(s[1..]) else 0
  }

  /** Index of the first ' ', or |s| when there is none. */
  function IndexOfSpace(s: string): (k: nat)
    ensures k <= |s|
    ensures forall i :: 0 <= i < k ==> s[i] != ' '
    ensures k < |s| ==> s[k] == ' '
  {
    if s == [] || s[0] == ' ' then 0 else 1 + IndexOfSpace(s[1..])
  }

  /** s.Split(' ', 2, StringSplitOptions.RemoveEmptyEntries): at most two
      non-empty parts; the first is the first space-free token, the second is
      everything after the spaces that follow it, internal spaces included. */
  function SplitOnce(s: string): (parts: seq<string>)
    ensures |parts| <= 2
    ensures forall i :: 0 <= i < |parts| ==> parts[i] != []
    ensures parts == [] <==> forall i :: 0 <= i < |s| ==> s[i] == ' '
    ensures |parts| >= 1 ==> ' ' !in parts[0] && parts[0] <= AfterSpaces(s)
    ensures |parts| >= 1 ==> FirstTokenSplit(AfterSpaces(s), parts)
    ensures |parts| == 2 ==> parts[1][0] != ' '
  {
    var t := AfterSpaces(s);
    assert t == [] ==> forall i :: 0 <= i < |s| ==> s[i] == ' ';
    SplitToken(t)
  }


  /** parts cuts t at its first space: parts[0] is everything before it, and
      a second part is present exactly when something other than spaces
      follows, and is then all of that, from its first non-space on. */
  predicate FirstTokenSplit(t: string, parts: seq<string>) {
    && 1 <= |parts| <= 2
    && |parts[0]| <= |t|
    && (|parts[0]| < |t| ==> t[|parts[0]|] == ' ')
    && (|parts| == 2 <==> AfterSpaces(t[|parts[0]|..]) != [])
    && (|parts| == 2 ==> parts[1] == AfterSpaces(t[|parts[0]|..]))
  }

  /** The split of a string that does not start with a space. */
  function SplitToken(t: string): (parts: seq<string>)
    requires t == [] || t[0] != ' '
    ensures |parts| <= 2
    ensures forall i :: 0 <= i < |parts| ==> parts[i] != []
    ensures parts == [] <==> t == []
    ensures |parts| >= 1 ==> ' ' !in parts[0] && parts[0] <= t
    ensures |parts| >= 1 ==> FirstTokenSplit(t, parts)
    ensures |parts| == 2 ==> parts[1][0] != ' '
  {
    if t == [] then []
    else
      var k := IndexOfSpace(t);
      TokenParts(t, k);
      var rest := AfterSpaces(t[k..]);
      if rest == [] then [t[..k]] else [t[..k], rest]
  }

  /** The first token of t ends at its first space k. */
  lemma TokenParts(t: string, k: nat)
    requires t != [] && t[0] != ' '
    requires k <= |t| && (k < |t| ==> t[k] == ' ')
    requires forall i :: 0 <= i < k ==> t[i] != ' '
    ensures 0 < k && |t[..k]| == k && t[..k] <= t && ' ' !in t[..k]
  {
    var head := t[..k];
    forall i | 0 <= i < k ensures head[i] != ' ' { assert head[i] == t[i]; }
  }

  /** The second part of a split is a suffix of the string split. */
  lemma SplitOnceSuffix(s: string)
    ensures |SplitOnce(s)| == 2 ==> SplitOnce(s)[1] == s[|s| - |SplitOnce(s)[1]|..]
  {
    var parts := SplitOnce(s);
    if |parts| == 2 {
      var n := LeadingSpaces(s);
      var k := |parts[0]|;
      var u := s[n..][k..];
      var m := LeadingSpaces(u);
      assert parts[1] == u[m..];
      SliceOfSlice(s, n, k);
      SliceOfSlice(s, n + k, m);
    }
  }

  lemma SliceOfSlice(s: string, a: nat, b: nat)
    requires a + b <= |s|
    ensures s[a..][b..] == s[a + b..]
  {
  }

  /** What is left of s once its leading spaces are skipped. */
  function AfterSpaces(s: string): (r: string)
    ensures |r| <= |s| && r == s[|s| - |r|..]
    ensures r != [] ==> r[0] != ' '
    ensures r == [] <==> forall i :: 0 <= i < |s| ==> s[i] == ' '
  {
    var n := LeadingSpaces(s);
    assert n < |s| ==> s[n..][0] == s[n];
    s[n..]
  }

  /** A display name "First Last" splits back into its two halves when the
      first name has no space and neither half has surrounding blanks. */
  lemma SplitOnceJoined(first: string, last: string)
    requires first != [] && ' ' !in first
    requires last != [] && last[0] != ' '
    ensures SplitOnce(first + " " + last) == [first, last]
  {
    var s := first + " " + last;
    assert s[0] == first[0];
    assert LeadingSpaces(s) == 0;
    assert s[0..] == s;
    IndexOfSpaceAt(s, |first|);
    assert s[..|first|] == first;
    assert s[|first|..] == [' '] + last;
    assert LeadingSpaces([' '] + last) == 1 by {
      assert ([' '] + last)[1..] == last;
    }
    assert ([' '] + last)[1..] == last;
  }

  /** IndexOfSpace finds the first space exactly. */
  lemma {:induction false} IndexOfSpaceAt(s: string, k: nat)
    requires k < |s| && s[k] == ' '
    requires forall i :: 0 <= i < k ==> s[i] != ' '
    ensures IndexOfSpace(s) == k
  {
    if k > 0 {
      IndexOfSpaceAt(s[1..], k - 1);
    }
  }

  /** A name without spaces splits into itself alone. */
  lemma SplitOnceSingle(name: string)
    requires name != [] && ' ' !in name
    ensures SplitOnce(name) == [name]
  {
    assert name[0] != ' ';
    assert AfterSpaces(name) == name by { assert name[0..] == name; }
    NoSpaceIndex(name);
    assert name[..|name|] == name;
    assert AfterSpaces(name[|name|..]) == [];
  }

  lemma {:induction false} NoSpaceIndex(s: string)
    requires ' ' !in s
    ensures IndexOfSpace(s) == |s|
  {
    if s != [] {
      assert ' ' !in s[1..] by {
        forall i | 0 <= i < |s| - 1 ensures s[1..][i] != ' ' {
          assert s[1..][i] == s[i + 1];
        }
      }
      NoSpaceIndex(s[1..]);
    }
  }

  const Int32Min: int := -0x8000_0000
  const Int32Max: int := 0x7fff_ffff

  predicate InInt32(n: int) {
    Int32Min <= n <= Int32Max
  }

  function DigitValue(c: char): nat
    requires IsDigit(c)
  {
    c as int - '0' as int
  }

  function DigitChar(d: nat): (c: char)
    requires d < 10
    ensures IsDigit(c) && DigitValue(c) == d
  {
    ('0' as int + d) as char
  }

  /** The number written by a string of decimal digits, most significant first. */
  function DecimalValue(ds: string): nat
    requires AllDigits(ds)
  {
    if ds == [] then 0 else 10 * DecimalValue(ds[..|ds| - 1]) + DigitValue(ds[|ds| - 1])
  }

  /** Decimal digits of n with no leading zero (Int32.ToString for n >= 0). */
  function ShowNat(n: nat): (s: string)
    ensures s != [] && AllDigits(s)
    ensures n > 0 ==> s[0] != '0'
    ensures n == 0 ==> s == "0"
  {
    if n < 10 then [DigitChar(n)] else ShowNat(n / 10) + [DigitChar(n % 10)]
  }

  /** Int32.ToString(), written with '-' as the negative sign: the decimal
      digits with no leading zero, after '-' for a negative value. */
  function ShowInt(n: int): (s: string)
    ensures s != []
    ensures n >= 0 ==> AllDigits(s) && DecimalValue(s) == n
    ensures n >= 0 ==> (s[0] == '0' ==> s == "0")
    ensures n < 0 ==> s[0] == '-' && AllDigits(s[1..]) && DecimalValue(s[1..]) == -n
    ensures n < 0 ==> |s| > 1 && s[1] != '0'
  {
    if n < 0 then
      DecimalValueShowNat(-n);
      var s := "-" + ShowNat(-n);
      assert s[1..] == ShowNat(-n);
      s
    else
      DecimalValueShowNat(n);
      ShowNat(n)
  }

  /** The integer numerals int.TryParse reads: one or more ASCII digits,
      with an optional leading '+' or '-'. Leading zeros are allowed. */
  predicate IsNumeral(s: string) {
    || (s != [] && AllDigits(s))
    || (|s| > 1 && (s[0] == '+' || s[0] == '-') && AllDigits(s[1..]))
  }

  /** int.TryParse(s, out v) for a string already trimmed: an optional sign,
      then one or more ASCII digits, and the value must fit in 32 bits. */
  function ParseInt32(s: string): (r: Option<int>)
    ensures r.Some? ==> InInt32(r.value)
    ensures r.Some? ==> IsNumeral(s)
    ensures IsBlank(s) ==> r.None?
  {
    var signed := |s| > 0 && (s[0] == '-' || s[0] == '+');
    var ds := if signed then s[1..] else s;
    if ds == [] || !AllDigits(ds) then None
    else
      var v: int := if signed && s[0] == '-' then -(DecimalValue(ds) as int) else DecimalValue(ds);
      if InInt32(v) then Some(v) else None
  }

  /** Every numeral is read as its signed decimal value, accepted exactly
      when that value fits in 32 bits: "+5" gives 5, "007" gives 7, "-0"
      gives 0. */
  lemma ParseInt32Numeral(sign: string, ds: string)
    requires sign == "" || sign == "+" || sign == "-"
    requires ds != [] && AllDigits(ds)
    ensures IsNumeral(sign + ds)
    ensures var v: int := if sign == "-" then -(DecimalValue(ds) as int) else DecimalValue(ds);
      ParseInt32(sign + ds) == if InInt32(v) then Some(v) else None
  {
    var s := sign + ds;
    if sign == "" {
      assert s == ds;
      assert IsDigit(s[0]);
    } else {
      assert s[0] == sign[0];
      assert s[1..] == ds;
    }
  }

  lemma {:induction false} DecimalValueShowNat(n: nat)
    ensures DecimalValue(ShowNat(n)) == n
  {
    if n >= 10 {
      DecimalValueShowNat(n / 10);
      var s := ShowNat(n);
      assert s[..|s| - 1] == ShowNat(n / 10);
    }
  }

  /** What Int32.ToString writes, int.TryParse reads back: a capacity shown in
      the capacity box and saved unchanged keeps its value. */
  lemma ParseShowInt(n: int)
    requires InInt32(n)
    ensures ParseInt32(ShowInt(n)) == Some(n)
  {
    if n < 0 {
      DecimalValueShowNat(-n);
      assert ShowInt(n)[1..] == ShowNat(-n);
    } else {
      DecimalValueShowNat(n);
      assert ShowNat(n)[0] != '-' && ShowNat(n)[0] != '+';
    }
  }
}
