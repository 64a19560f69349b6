/** String operations of the JavaScript runtime that the application relies on,
    stated over `seq<char>`: decimal rendering and zero padding, `split` on
    one character, `join`, `trim`, occurrence tests and ASCII upper-casing. */
module Text {

  // ---------------------------------------------------------------------
  // Decimal digits
  // ---------------------------------------------------------------------

  predicate IsDigitChar(c: char) {
    '0' <= c <= '9'
  }

  predicate AllDigits(s: string) {
    forall i :: 0 <= i < |s| ==> IsDigitChar(s[i])
  }

  function DigitChar(d: int): (c: char)
    requires 0 <= d <= 9
    ensures IsDigitChar(c)
  {
    ('0' as int + d) as char
  }

  /** `Number(c)` for a single decimal digit character. */
  function DigitValue(c: char): (d: int)
    requires IsDigitChar(c)
    ensures 0 <= d <= 9
    ensures DigitChar(d) == c
  {
    c as int - '0' as int
  }

  /** The decimal rendering JavaScript gives a non-negative integer. */
  function NatToString(n: nat): (s: string)
    ensures 1 <= |s|
    ensures AllDigits(s)
    ensures n < 10 <==> |s| == 1
    ensures s[0] == '0' ==> n == 0
  {
    if n < 10 then [DigitChar(n)] else NatToString(n / 10) + [DigitChar(n % 10)]
  }

  /** Template-literal rendering of an integer, with a leading minus sign. */
  function IntToString(n: int): string {
    if n < 0 then "-" + NatToString(-n) else NatToString(n)
  }

  /** The value of a string of decimal digits, most significant first. */
  function ParseDigits(s: string): nat
    requires AllDigits(s)
  {
    if s == [] then 0 else 10 * ParseDigits(s[..|s| - 1]) + DigitValue(s[|s| - 1])
  }

  function Pow10(k: nat): nat {
    if k == 0 then 1 else 10 * Pow10(k - 1)
  }

  /** Reading back the decimal rendering gives the number. */
  lemma {:induction false} ParseNatToString(n: nat)
    ensures ParseDigits(NatToString(n)) == n
  {
    if n >= 10 {
      var s := NatToString(n);
      assert s[..|s| - 1] == NatToString(n / 10);
      ParseNatToString(n / 10);
    }
  }

  lemma AllDigitsAppend(a: string, b: string)
    requires AllDigits(a) && AllDigits(b)
    ensures AllDigits(a + b)
  {
    forall i | 0 <= i < |a + b| ensures IsDigitChar((a + b)[i]) {
      if i < |a| { assert (a + b)[i] == a[i]; } else { assert (a + b)[i] == b[i - |a|]; }
    }
  }

  lemma ShiftDigit(pa: int, k: int, pb: int, d: int)
    ensures 10 * (pa * k + pb) + d == pa * (10 * k) + (10 * pb + d)
  {
  }

  /** Parsing distributes over concatenation. */
  lemma {:induction false} ParseDigitsAppend(a: string, b: string)
    requires AllDigits(a) && AllDigits(b)
    ensures AllDigits(a + b)
    ensures ParseDigits(a + b) == ParseDigits(a) * Pow10(|b|) + ParseDigits(b)
  {
    AllDigitsAppend(a, b);
    if b != [] {
      var b' := b[..|b| - 1];
      var d := DigitValue(b[|b| - 1]);
      assert (a + b)[..|a + b| - 1] == a + b';
      assert (a + b)[|a + b| - 1] == b[|b| - 1];
      AllDigitsAppend(a, b');
      assert ParseDigits(a + b) == 10 * ParseDigits(a + b') + d;
      ParseDigitsAppend(a, b');
      assert ParseDigits(b) == 10 * ParseDigits(b') + d;
      ShiftDigit(ParseDigits(a), Pow10(|b'|), ParseDigits(b'), d);
    } else {
      assert a + b == a;
    }
  }

  function Zeros(k: nat): (s: string)
    ensures |s| == k
    ensures forall i :: 0 <= i < k ==> s[i] == '0'
  {
    if k == 0 then [] else "0" + Zeros(k - 1)
  }

  lemma {:induction false} ParseZeros(k: nat)
    ensures AllDigits(Zeros(k))
    ensures ParseDigits(Zeros(k)) == 0
  {
    if k > 0 {
      assert Zeros(k)[..k - 1] == Zeros(k - 1);
      ParseZeros(k - 1);
    }
  }

  /** `String(n).padStart(width, '0')`: left-padding with zeros up to `width`. */
  function ZeroPad(n: nat, width: nat): (s: string)
    ensures AllDigits(s)
    ensures |s| == if |NatToString(n)| >= width then |NatToString(n)| else width
    ensures ParseDigits(s) == n
  {
    var digits := NatToString(n);
    ParseNatToString(n);
    if |digits| >= width then digits
    else
      var zeros := Zeros(width - |digits|);
      ParseZeros(width - |digits|);
      ParseDigitsAppend(zeros, digits);
      assert ParseDigits(zeros) * Pow10(|digits|) == 0;
      zeros + digits
  }

  /** The longest prefix of `s` made of decimal digits. */
  function LeadingDigits(s: string): (d: string)
    ensures d <= s
    ensures AllDigits(d)
    ensures |d| == |s| || !IsDigitChar(s[|d|])
  {
    if s != [] && IsDigitChar(s[0]) then [s[0]] + LeadingDigits(s[1..]) else []
  }

  /** A decimal rendering followed by a non-digit is read back whole. */
  lemma {:induction false} LeadingDigitsOfRendering(digits: string, rest: string)
    requires AllDigits(digits)
    requires rest == [] || !IsDigitChar(rest[0])
    ensures LeadingDigits(digits + rest) == digits
  {
    if digits != [] {
      assert (digits + rest)[1..] == digits[1..] + rest;
      LeadingDigitsOfRendering(digits[1..], rest);
    } else {
      assert digits + rest == rest;
    }
  }

  /** Reads the decimal number that starts at position `at` of `s`. */
  function ReadNumberAt(s: string, at: nat): nat
    requires at <= |s|
  {
    ParseDigits(LeadingDigits(s[at..]))
  }

  /** A number rendered at a known position between a known prefix and a
      non-digit can be read back from the text. */
  lemma ReadBack(prefix: string, n: nat, rest: string)
    requires rest == [] || !IsDigitChar(rest[0])
    ensures ReadNumberAt(prefix + (NatToString(n) + rest), |prefix|) == n
  {
    var s := prefix + (NatToString(n) + rest);
    assert s[|prefix|..] == NatToString(n) + rest;
    LeadingDigitsOfRendering(NatToString(n), rest);
    ParseNatToString(n);
  }

  /** Two numbers rendered between known texts are both read back, each at
      the position where its rendering starts. */
  lemma ReadBackTwo(a: string, N: string, n: nat, b: string, M: string, m: nat, rest: string)
    requires N == NatToString(n) && M == NatToString(m)
    requires b != [] && !IsDigitChar(b[0])
    requires rest == [] || !IsDigitChar(rest[0])
    ensures ReadNumberAt(a + (N + (b + (M + rest))), |a|) == n
    ensures ReadNumberAt(a + (N + (b + (M + rest))), |a| + |N| + |b|) == m
  {
    ReadBack(a, n, b + (M + rest));
    AppendAssoc(a, N, b + (M + rest));
    AppendAssoc(a + N, b, M + rest);
    ReadBack(a + N + b, m, rest);
  }

  /** A number rendered at the very end of a text is read back. */
  lemma ReadBackLast(prefix: string, N: string, n: nat)
    requires N == NatToString(n)
    ensures ReadNumberAt(prefix + N, |prefix|) == n
  {
    ReadBack(prefix, n, []);
    assert N + [] == N;
  }

  /** Any run of digits (leading zeros allowed) followed by a non-digit reads
      back as its value. */
  lemma ReadDigitsAt(prefix: string, D: string, rest: string)
    requires AllDigits(D)
    requires rest == [] || !IsDigitChar(rest[0])
    ensures ReadNumberAt(prefix + (D + rest), |prefix|) == ParseDigits(D)
  {
    assert (prefix + (D + rest))[|prefix|..] == D + rest;
    LeadingDigitsOfRendering(D, rest);
  }

  // ---------------------------------------------------------------------
  // join and split
  // ---------------------------------------------------------------------

  /** A suffix splits at any later position. */
  lemma SliceSplit<T>(s: seq<T>, i: nat, j: nat)
    requires i <= j <= |s|
    ensures s[i..] == s[i..j] + s[j..]
  {
  }

  lemma AppendAssoc<T>(x: seq<T>, y: seq<T>, z: seq<T>)
    ensures x + (y + z) == (x + y) + z
  {
  }

  /** Dropping the head of a concatenation drops the head of its first part. */
  lemma TailAppend<T>(a: seq<T>, b: seq<T>)
    requires |a| >= 1
    ensures (a + b)[1..] == a[1..] + b
  {
  }

  /** `xs.join(sep)`. */
  function Join(sep: string, xs: seq<string>): string {
    if |xs| == 0 then ""
    else if |xs| == 1 then xs[0]
    else xs[0] + sep + Join(sep, xs[1..])
  }

  /** A join of three pieces spelled out; with empty outer pieces, the
      separator on either side of the middle one. */
  lemma JoinThree(sep: string, a: string, b: string, c: string)
    ensures Join(sep, [a, b, c]) == a + sep + (b + sep + c)
    ensures a == [] && c == [] ==> Join(sep, [a, b, c]) == sep + (b + sep)
  {
    assert [a, b, c][1..] == [b, c];
    assert [b, c][1..] == [c];
    assert Join(sep, [b, c]) == b + sep + c;
    if a == [] && c == [] {
      assert a + sep == sep && b + sep + c == b + sep;
    }
  }

  /** Number of occurrences of `c` in `s`. */
  function CountChar(s: string, c: char): nat {
    if s == [] then 0 else (if s[0] == c then 1 else 0) + CountChar(s[1..], c)
  }

  lemma {:induction false} CountCharAppend(a: string, b: string, c: char)
    ensures CountChar(a + b, c) == CountChar(a, c) + CountChar(b, c)
  {
    if a == [] {
      assert a + b == b;
    } else {
      assert (a + b)[1..] == a[1..] + b;
      CountCharAppend(a[1..], b, c);
    }
  }

  lemma {:induction false} CountCharAbsent(s: string, c: char)
    requires c !in s
    ensures CountChar(s, c) == 0
  {
    if s != [] {
      CountCharAbsent(s[1..], c);
    }
  }

  /** Joining `n` pieces that are free of `c` with a separator holding `c` once
      yields exactly `n - 1` occurrences of `c`: every piece is kept, duplicates
      included. */
  lemma {:induction false} CountCharJoin(sep: string, xs: seq<string>, c: char)
    requires CountChar(sep, c) == 1
    requires forall i :: 0 <= i < |xs| ==> c !in xs[i]
    ensures |xs| > 0 ==> CountChar(Join(sep, xs), c) == |xs| - 1
    ensures |xs| == 0 ==> Join(sep, xs) == ""
  {
    if |xs| == 1 {
      CountCharAbsent(xs[0], c);
    } else if |xs| > 1 {
      CountCharJoin(sep, xs[1..], c);
      CountCharAbsent(xs[0], c);
      CountCharAppend(xs[0], sep, c);
      CountCharAppend(xs[0] + sep, Join(sep, xs[1..]), c);
    }
  }

  /** `s.split(sep)` for a one-character separator: the pieces between
      separators, empty pieces included. */
  function Split(s: string, sep: char): (parts: seq<string>)
    ensures |parts| >= 1
    ensures forall i :: 0 <= i < |parts| ==> sep !in parts[i]
  {
    if s == [] then [""]
    else
      var rest := Split(s[1..], sep);
      if s[0] == sep then [""] + rest else [[s[0]] + rest[0]] + rest[1..]
  }

  /** Joining the pieces back with the separator restores the string. */
  lemma {:induction false} JoinSplit(s: string, sep: char)
    ensures Join([sep], Split(s, sep)) == s
  {
    if s != [] {
      var rest := Split(s[1..], sep);
      JoinSplit(s[1..], sep);
      if s[0] == sep {
        assert ([""] + rest)[1..] == rest;
      } else {
        var parts := [[s[0]] + rest[0]] + rest[1..];
        if |rest| > 1 {
          assert parts[1..] == rest[1..];
          assert Join([sep], rest) == rest[0] + [sep] + Join([sep], rest[1..]);
        }
      }
    }
  }

  lemma {:induction false} SplitFree(a: string, sep: char)
    requires sep !in a
    ensures Split(a, sep) == [a]
  {
    if a != [] {
      assert a[0] != sep;
      assert sep !in a[1..] by {
        forall i | 0 <= i < |a[1..]| ensures a[1..][i] != sep {
          assert a[1..][i] == a[i + 1];
        }
      }
      SplitFree(a[1..], sep);
      assert [a[0]] + a[1..] == a;
    }
  }

  lemma {:induction false} SplitAfterPiece(a: string, b: string, sep: char)
    requires sep !in a
    ensures Split(a + [sep] + b, sep) == [a] + Split(b, sep)
  {
    if a == [] {
      assert a + [sep] + b == [sep] + b;
      assert ([sep] + b)[0] == sep;
      assert ([sep] + b)[1..] == b;
    } else {
      assert (a + [sep] + b)[0] == a[0] != sep;
      assert (a + [sep] + b)[1..] == a[1..] + [sep] + b;
      assert sep !in a[1..] by {
        forall i | 0 <= i < |a[1..]| ensures a[1..][i] != sep {
          assert a[1..][i] == a[i + 1];
        }
      }
      SplitAfterPiece(a[1..], b, sep);
      assert [a[0]] + a[1..] == a;
    }
  }

  /** Splitting a join of separator-free pieces gives the pieces back. */
  lemma {:induction false} SplitJoin(xs: seq<string>, sep: char)
    requires |xs| >= 1
    requires forall i :: 0 <= i < |xs| ==> sep !in xs[i]
    ensures Split(Join([sep], xs), sep) == xs
  {
    if |xs| == 1 {
      SplitFree(xs[0], sep);
    } else {
      SplitJoin(xs[1..], sep);
      SplitAfterPiece(xs[0], Join([sep], xs[1..]), sep);
      assert [xs[0]] + xs[1..] == xs;
    }
  }

  /** A separator splits the string around it: the pieces of each side, in
      order, with neither side's pieces merged. */
  lemma {:induction false} SplitAround(a: string, b: string, sep: char)
    ensures Split(a + [sep] + b, sep) == Split(a, sep) + Split(b, sep)
  {
    if a == [] {
      assert a + [sep] + b == [sep] + b;
      assert ([sep] + b)[0] == sep;
      assert ([sep] + b)[1..] == b;
    } else {
      assert (a + [sep] + b)[0] == a[0];
      assert (a + [sep] + b)[1..] == a[1..] + [sep] + b;
      SplitAround(a[1..], b, sep);
    }
  }

  /** `.filter(part => part.length > 0)`. */
  function NonEmpty(parts: seq<string>): (r: seq<string>)
    ensures |r| <= |parts|
    ensures forall i :: 0 <= i < |r| ==> r[i] != [] && r[i] in parts
    ensures forall i :: 0 <= i < |parts| && parts[i] != [] ==> parts[i] in r
  {
    if parts == [] then []
    else (if parts[0] != [] then [parts[0]] else []) + NonEmpty(parts[1..])
  }

  /** The filter works piece by piece. */
  lemma {:induction false} NonEmptyAppend(xs: seq<string>, ys: seq<string>)
    ensures NonEmpty(xs + ys) == NonEmpty(xs) + NonEmpty(ys)
  {
    if xs != [] {
      assert (xs + ys)[0] == xs[0];
      assert (xs + ys)[1..] == xs[1..] + ys;
      NonEmptyAppend(xs[1..], ys);
    } else {
      assert xs + ys == ys;
    }
  }

  /** One piece survives the filter exactly when it is not empty. */
  lemma NonEmptyOne(x: string)
    ensures NonEmpty([x]) == if x == [] then [] else [x]
  {
    assert [x][1..] == [];
  }


  // ---------------------------------------------------------------------
  // trim
  // ---------------------------------------------------------------------

  /** ECMAScript WhiteSpace and LineTerminator code points, the set `trim`
      removes. */
  predicate IsJsWhitespace(c: char) {
    || c == '\t' || c == '\n' || c == '\U{000B}' || c == '\U{000C}' || c == '\r'
    || c == ' ' || c == '\U{00A0}' || c == '\U{1680}'
    || ('\U{2000}' <= c <= '\U{200A}')
    || c == '\U{2028}' || c == '\U{2029}' || c == '\U{202F}' || c == '\U{205F}'
    || c == '\U{3000}' || c == '\U{FEFF}'
  }

  /** How many whitespace characters `s` starts with. */
  function LeadingSpace(s: string): (k: nat)
    ensures k <= |s|
    ensures forall i :: 0 <= i < k ==> IsJsWhitespace(s[i])
    ensures k == |s| || !IsJsWhitespace(s[k])
  {
    if s != [] && IsJsWhitespace(s[0]) then
      var k := LeadingSpace(s[1..]);
      assert forall i :: 1 <= i <= k ==> s[i] == s[1..][i - 1];
      1 + k
    else 0
  }

  /** How many whitespace characters `s` ends with. */
  function TrailingSpace(s: string): (k: nat)
    ensures k <= |s|
    ensures forall i :: |s| - k <= i < |s| ==> IsJsWhitespace(s[i])
    ensures k == |s| || !IsJsWhitespace(s[|s| - k - 1])
  {
    if s != [] && IsJsWhitespace(s[|s| - 1]) then 1 + TrailingSpace(s[..|s| - 1]) else 0
  }

  /** `s.trimStart()`. */
  function TrimStart(s: string): (r: string)
    ensures |r| <= |s| && r == s[|s| - |r|..]
  {
    s[LeadingSpace(s)..]
  }

  /** `s.trimEnd()`. */
  function TrimEnd(s: string): (r: string)
    ensures r <= s
  {
    s[..|s| - TrailingSpace(s)]
  }

  /** `s.trim()`: the text between the leading and the trailing whitespace
      (what it keeps and drops is stated by `TrimSpec`). */
  function Trim(s: string): (r: string)
    ensures |r| <= |s|
  {
    TrimEnd(TrimStart(s))
  }

  /** The trim of `s` is the slice of `s` left after dropping a run of
      whitespace in front and a run of whitespace behind. */
  lemma TrimSpec(s: string)
    ensures var r := Trim(s); var k := |s| - |TrimStart(s)|;
      && k + |r| <= |s| && s[k..k + |r|] == r
      && (forall i :: 0 <= i < k ==> IsJsWhitespace(s[i]))
      && (forall i :: k + |r| <= i < |s| ==> IsJsWhitespace(s[i]))
  {
    var t := TrimStart(s);
    TrimSliceOf(s, t, |s| - |t|);
  }

  /** Trimming the end of a suffix of `s` leaves a slice of `s` followed by
      whitespace only. */
  lemma TrimSliceOf(s: string, t: string, k: nat)
    requires k <= |s| && t == s[k..]
    ensures var r := TrimEnd(t);
      && k + |r| <= |s| && s[k..k + |r|] == r
      && (forall i :: k + |r| <= i < |s| ==> IsJsWhitespace(s[i]))
  {
    SliceOfSuffix(s, t, TrimEnd(t), k);
  }

  /** Cutting a prefix `r` out of the suffix `t == s[k..]`: `r` sits at `k`
      in `s`, and whatever `t` has after `r` is what `s` has after it. */
  lemma SliceOfSuffix(s: string, t: string, r: string, k: nat)
    requires k <= |s| && t == s[k..] && r <= t
    requires forall i :: |r| <= i < |t| ==> IsJsWhitespace(t[i])
    ensures k + |r| <= |s| && s[k..k + |r|] == r
    ensures forall i :: k + |r| <= i < |s| ==> IsJsWhitespace(s[i])
  {
    assert forall j :: 0 <= j < |r| ==> s[k..k + |r|][j] == s[k + j] == t[j] == r[j];
    forall i | k + |r| <= i < |s| ensures IsJsWhitespace(s[i]) {
      assert s[i] == t[i - k];
    }
  }

  /** The trim is empty exactly when `s` is all whitespace, and otherwise
      begins and ends with a non-whitespace character. */
  lemma TrimEnds(s: string)
    ensures Trim(s) == [] <==> forall i :: 0 <= i < |s| ==> IsJsWhitespace(s[i])
    ensures Trim(s) != [] ==> !IsJsWhitespace(Trim(s)[0]) && !IsJsWhitespace(Trim(s)[|Trim(s)| - 1])
  {
    TrimAllSpace(s, TrimStart(s));
    TrimFirst(TrimStart(s));
  }

  lemma TrimAllSpace(s: string, t: string)
    requires t == TrimStart(s)
    ensures TrimEnd(t) == [] <==> forall i :: 0 <= i < |s| ==> IsJsWhitespace(s[i])
  {
    if TrimEnd(t) == [] {
      // what `TrimEnd` removed is whitespace, which `TrimStart` left none of
      assert t == [];
    }
  }

  lemma TrimFirst(t: string)
    requires t == [] || !IsJsWhitespace(t[0])
    ensures var r := TrimEnd(t); r != [] ==> !IsJsWhitespace(r[0])
  {
    var r := TrimEnd(t);
    if r != [] {
      assert r[0] == t[0];
    }
  }

  /** A string that neither begins nor ends with whitespace is its own trim,
      and conversely. */
  lemma TrimUnchanged(s: string)
    ensures Trim(s) == s <==> s == [] || (!IsJsWhitespace(s[0]) && !IsJsWhitespace(s[|s| - 1]))
  {
    TrimEnds(s);
  }

  /** Trimming drops a space in front of a trimmed string. */
  lemma TrimSpaceFront(b: string)
    requires Trim(b) == b
    ensures Trim(" " + b) == b
  {
    TrimUnchanged(b);
    TrimStartSkips(' ', b);
    TrimStartKeeps(b);
  }

  /** A leading whitespace character is dropped and trimming goes on. */
  lemma TrimStartSkips(c: char, b: string)
    requires IsJsWhitespace(c)
    ensures TrimStart([c] + b) == TrimStart(b)
  {
    assert ([c] + b)[1..] == b;
  }

  /** A text that starts with no whitespace has nothing to trim in front. */
  lemma TrimStartKeeps(b: string)
    requires b == [] || !IsJsWhitespace(b[0])
    ensures TrimStart(b) == b
  {
  }

  /** Trimming drops a space behind a trimmed string. */
  lemma TrimSpaceBack(a: string)
    requires Trim(a) == a && a != []
    ensures Trim(a + " ") == a
  {
    TrimUnchanged(a);
    assert (a + " ")[0] == a[0];
    assert (a + " ")[..|a + " "| - 1] == a;
  }


  // ---------------------------------------------------------------------
  // occurrences, prefixes and case
  // ---------------------------------------------------------------------

  /** `s.includes(pat)`. */
  predicate Occurs(pat: string, s: string) {
    exists i | 0 <= i <= |s| - |pat| :: MatchAt(pat, s, i)
  }

  /** `pat` occurs in `s` starting at index `i`. */
  predicate MatchAt(pat: string, s: string, i: int) {
    0 <= i && i + |pat| <= |s| && s[i..i + |pat|] == pat
  }

  /** `pat` sits inside `a + pat + b`. */
  lemma OccursBetween(a: string, pat: string, b: string)
    ensures Occurs(pat, a + pat + b)
  {
    assert MatchAt(pat, a + pat + b, |a|);
  }

  lemma OccursAtStart(pat: string, b: string)
    ensures Occurs(pat, pat + b)
  {
    assert (pat + b)[..|pat|] == pat;
    assert MatchAt(pat, pat + b, 0);
  }

  /** ASCII `toUpperCase` of one character; other characters are unchanged. */
  function AsciiUpper(c: char): char {
    if 'a' <= c <= 'z' then (c as int - 32) as char else c
  }

  /** Line terminators, the characters a regular expression `.` does not match. */
  predicate IsLineTerminator(c: char) {
    c == '\n' || c == '\r' || c == '\U{2028}' || c == '\U{2029}'
  }
}
