/** The Pythagorean numerology engine of the main page: letters to digits,
    a birth date to its non-zero digits, a full name to its last, middle and
    first segments, and the nine-cell grid that groups every digit occurrence
    by value and records where it came from. */
module Numerology {
  import opened Wrappers
  import opened Text

  // ---------------------------------------------------------------------
  // Letter-to-digit mapper
  // ---------------------------------------------------------------------

  /** The letter lookup table and the upper-casing applied before the lookup.
      The table's contents are not part of this model, so both are
      parameters. Upper-casing maps one character to a string, since
      `toUpperCase` can lengthen a text ('ß' becomes "SS"). */
  datatype Alphabet = Alphabet(digits: map<char, int>, upper: char -> string)

  /** The table lookup is truthy: the character has an entry and it is not 0. */
  predicate Mapped(a: Alphabet, c: char) {
    c in a.digits && a.digits[c] != 0
  }

  /** `text.toUpperCase()`: every character replaced by its upper-case form. */
  function Upper(a: Alphabet, text: string): (u: string)
    ensures text == [] ==> u == []
    ensures text != [] ==> |u| >= |a.upper(text[0])| && u[..|a.upper(text[0])|] == a.upper(text[0])
  {
    if text == [] then [] else a.upper(text[0]) + Upper(a, text[1..])
  }

  /** The table value of every mapped character of an upper-cased text. */
  function DigitsOfUpper(a: Alphabet, u: string): (r: seq<int>)
    ensures |r| <= |u|
    ensures forall i :: 0 <= i < |r| ==> r[i] != 0 && r[i] in a.digits.Values
  {
    if u == [] then []
    else (if Mapped(a, u[0]) then [a.digits[u[0]]] else []) + DigitsOfUpper(a, u[1..])
  }

  /** `convertToNumber`: upper-case, split into characters, keep those with a
      truthy table entry, replace each by its entry. */
  function ConvertToNumber(a: Alphabet, text: string): (r: seq<int>)
    ensures |r| <= |Upper(a, text)|
    ensures forall i :: 0 <= i < |r| ==> r[i] != 0 && r[i] in a.digits.Values
  {
    DigitsOfUpper(a, Upper(a, text))
  }

  lemma {:induction false} UpperAppend(a: Alphabet, s: string, t: string)
    ensures Upper(a, s + t) == Upper(a, s) + Upper(a, t)
  {
    if s == [] {
      assert s + t == t;
    } else {
      assert (s + t)[1..] == s[1..] + t;
      UpperAppend(a, s[1..], t);
    }
  }

  lemma {:induction false} DigitsOfUpperAppend(a: Alphabet, s: string, t: string)
    ensures DigitsOfUpper(a, s + t) == DigitsOfUpper(a, s) + DigitsOfUpper(a, t)
  {
    if s == [] {
      assert s + t == t;
    } else {
      assert (s + t)[1..] == s[1..] + t;
      DigitsOfUpperAppend(a, s[1..], t);
    }
  }

  /** The mapper works character by character: the digits of a concatenation
      are the digits of the parts, in order. With `ConvertOneChar` this
      determines the function completely. */
  lemma ConvertAppend(a: Alphabet, s: string, t: string)
    ensures ConvertToNumber(a, s + t) == ConvertToNumber(a, s) + ConvertToNumber(a, t)
  {
    UpperAppend(a, s, t);
    DigitsOfUpperAppend(a, Upper(a, s), Upper(a, t));
  }

  /** One character contributes the table values of the mapped characters of
      its upper-case form; when that form is a single character, its value
      when truthy and nothing otherwise. */
  lemma ConvertOneChar(a: Alphabet, c: char)
    ensures ConvertToNumber(a, [c]) == DigitsOfUpper(a, a.upper(c))
    ensures a.upper(c) == [] ==> ConvertToNumber(a, [c]) == []
    ensures |a.upper(c)| == 1 && Mapped(a, a.upper(c)[0]) ==> ConvertToNumber(a, [c]) == [a.digits[a.upper(c)[0]]]
    ensures |a.upper(c)| == 1 && !Mapped(a, a.upper(c)[0]) ==> ConvertToNumber(a, [c]) == []
  {
    assert [c][1..] == [];
    assert Upper(a, [c]) == a.upper(c) + [];
    assert a.upper(c) + [] == a.upper(c);
    var u := a.upper(c);
    if |u| == 1 {
      assert u[1..] == [];
    }
  }

  /** When every character upper-cases to a single character, the mapper
      yields at most one digit per character of the text. */
  lemma {:induction false} ConvertLengthBound(a: Alphabet, text: string)
    requires forall c :: |a.upper(c)| == 1
    ensures |ConvertToNumber(a, text)| <= |text|
  {
    UpperLength(a, text);
  }

  lemma {:induction false} UpperLength(a: Alphabet, text: string)
    requires forall c :: |a.upper(c)| == 1
    ensures |Upper(a, text)| == |text|
  {
    if text != [] {
      UpperLength(a, text[1..]);
    }
  }

  /** Two texts that agree after upper-casing, character by character, give
      the same digits. */
  lemma {:induction false} ConvertCaseInsensitive(a: Alphabet, s: string, t: string)
    requires |s| == |t|
    requires forall i :: 0 <= i < |s| ==> a.upper(s[i]) == a.upper(t[i])
    ensures ConvertToNumber(a, s) == ConvertToNumber(a, t)
  {
    UpperAgree(a, s, t);
  }

  lemma {:induction false} UpperAgree(a: Alphabet, s: string, t: string)
    requires |s| == |t|
    requires forall i :: 0 <= i < |s| ==> a.upper(s[i]) == a.upper(t[i])
    ensures Upper(a, s) == Upper(a, t)
  {
    if s != [] {
      assert a.upper(s[0]) == a.upper(t[0]);
      forall i | 0 <= i < |s[1..]| ensures a.upper(s[1..][i]) == a.upper(t[1..][i]) {
        assert s[1..][i] == s[i + 1] && t[1..][i] == t[i + 1];
      }
      UpperAgree(a, s[1..], t[1..]);
    }
  }

  /** When upper-casing an upper-case form changes nothing, the upper-cased
      text and the text itself give the same digits: lower and upper case are
      not told apart. */
  lemma ConvertIgnoresCase(a: Alphabet, s: string)
    requires forall c :: Upper(a, a.upper(c)) == a.upper(c)
    ensures ConvertToNumber(a, Upper(a, s)) == ConvertToNumber(a, s)
  {
    UpperIdempotent(a, s);
  }

  lemma {:induction false} UpperIdempotent(a: Alphabet, s: string)
    requires forall c :: Upper(a, a.upper(c)) == a.upper(c)
    ensures Upper(a, Upper(a, s)) == Upper(a, s)
  {
    if s != [] {
      UpperIdempotent(a, s[1..]);
      UpperAppend(a, a.upper(s[0]), Upper(a, s[1..]));
    }
  }

  /** A letter of the display breakdown and its digit. */
  datatype LetterDigit = LetterDigit(letter: char, number: int)

  function PairsOfUpper(a: Alphabet, u: string): (ps: seq<LetterDigit>)
    ensures forall i :: 0 <= i < |ps| ==> Mapped(a, ps[i].letter) && ps[i].number == a.digits[ps[i].letter]
  {
    if u == [] then []
    else (if Mapped(a, u[0]) then [LetterDigit(u[0], a.digits[u[0]])] else []) + PairsOfUpper(a, u[1..])
  }

  /** `getLetterNumberPairs`: the same filtering as the mapper, keeping the
      upper-case letter beside its digit. */
  function LetterNumberPairs(a: Alphabet, text: string): (ps: seq<LetterDigit>)
    ensures forall i :: 0 <= i < |ps| ==> Mapped(a, ps[i].letter) && ps[i].number == a.digits[ps[i].letter]
  {
    PairsOfUpper(a, Upper(a, text))
  }

  /** The `.number` fields of a breakdown. */
  function NumbersOf(ps: seq<LetterDigit>): (r: seq<int>)
    ensures |r| == |ps|
    ensures forall i :: 0 <= i < |ps| ==> r[i] == ps[i].number
  {
    if ps == [] then [] else [ps[0].number] + NumbersOf(ps[1..])
  }

  lemma {:induction false} PairsOfUpperProject(a: Alphabet, u: string)
    ensures NumbersOf(PairsOfUpper(a, u)) == DigitsOfUpper(a, u)
  {
    if u != [] {
      PairsOfUpperProject(a, u[1..]);
      var head := if Mapped(a, u[0]) then [LetterDigit(u[0], a.digits[u[0]])] else [];
      assert NumbersOf(head + PairsOfUpper(a, u[1..])) == NumbersOf(head) + NumbersOf(PairsOfUpper(a, u[1..]));
    }
  }

  /** The breakdown has one entry per digit of the mapper and projects onto
      exactly the mapper's output. */
  lemma PairsProjectToDigits(a: Alphabet, text: string)
    ensures |LetterNumberPairs(a, text)| == |ConvertToNumber(a, text)|
    ensures NumbersOf(LetterNumberPairs(a, text)) == ConvertToNumber(a, text)
  {
    PairsOfUpperProject(a, Upper(a, text));
  }

  // ---------------------------------------------------------------------
  // Birth date
  // ---------------------------------------------------------------------

  /** A calendar date as the date picker yields it. */
  datatype Date = Date(day: nat, month: nat, year: nat)

  predicate ValidDate(d: Date) {
    1 <= d.day <= 31 && 1 <= d.month <= 12 && 1 <= d.year
  }

  /** `format(date, 'ddMMyyyy')`. */
  function CompactDate(d: Date): string {
    ZeroPad(d.day, 2) + ZeroPad(d.month, 2) + ZeroPad(d.year, 4)
  }

  /** `format(date, 'dd/MM/yyyy')`. */
  function SlashedDate(d: Date): string {
    ZeroPad(d.day, 2) + ("/" + (ZeroPad(d.month, 2) + ("/" + ZeroPad(d.year, 4))))
  }

  lemma CompactDateDigits(d: Date)
    ensures AllDigits(CompactDate(d))
  {
    AllDigitsAppend(ZeroPad(d.day, 2), ZeroPad(d.month, 2));
    AllDigitsAppend(ZeroPad(d.day, 2) + ZeroPad(d.month, 2), ZeroPad(d.year, 4));
  }

  /** A day or month below 100 renders as exactly two characters. */
  lemma TwoDigitPad(n: nat)
    requires n < 100
    ensures |ZeroPad(n, 2)| == 2
  {
    if n >= 10 {
      assert NatToString(n) == NatToString(n / 10) + [DigitChar(n % 10)];
    }
  }

  /** The compact rendering is decodable: characters 0-1 are the day, 2-3 the
      month and the rest the year. */
  lemma CompactDateRoundTrip(d: Date)
    requires ValidDate(d)
    ensures |CompactDate(d)| >= 8
    ensures AllDigits(CompactDate(d))
    ensures ParseDigits(CompactDate(d)[..2]) == d.day
    ensures ParseDigits(CompactDate(d)[2..4]) == d.month
    ensures ParseDigits(CompactDate(d)[4..]) == d.year
  {
    TwoDigitPad(d.day);
    TwoDigitPad(d.month);
    CompactDateDigits(d);
    var s := CompactDate(d);
    assert s[..2] == ZeroPad(d.day, 2);
    assert s[2..4] == ZeroPad(d.month, 2);
    assert s[4..] == ZeroPad(d.year, 4);
  }

  /** The slashed rendering is decodable: the day, the month and the year are
      read back at positions 0, 3 and 6. */
  lemma SlashedDateRoundTrip(d: Date)
    requires ValidDate(d)
    ensures |SlashedDate(d)| >= 10
    ensures ReadNumberAt(SlashedDate(d), 0) == d.day
    ensures ReadNumberAt(SlashedDate(d), 3) == d.month
    ensures ReadNumberAt(SlashedDate(d), 6) == d.year
  {
    TwoDigitPad(d.day);
    TwoDigitPad(d.month);
    SlashedFields(ZeroPad(d.day, 2), ZeroPad(d.month, 2), ZeroPad(d.year, 4));
  }

  /** Three digit fields separated by slashes read back at their offsets. */
  lemma SlashedFields(D: string, M: string, Y: string)
    requires AllDigits(D) && AllDigits(M) && AllDigits(Y)
    requires |D| == 2 && |M| == 2
    ensures ReadNumberAt(D + ("/" + (M + ("/" + Y))), 0) == ParseDigits(D)
    ensures ReadNumberAt(D + ("/" + (M + ("/" + Y))), 3) == ParseDigits(M)
    ensures ReadNumberAt(D + ("/" + (M + ("/" + Y))), 6) == ParseDigits(Y)
  {
    var rest := M + ("/" + Y);
    assert "/"[0] == '/';
    ReadDigitsAt([], D, "/" + rest);
    assert [] + (D + ("/" + rest)) == D + ("/" + rest);
    AppendAssoc(D, "/", rest);
    ReadDigitsAt(D + "/", M, "/" + Y);
    AppendAssoc(D + "/", M, "/" + Y);
    AppendAssoc(D + "/" + M, "/", Y);
    assert Y + [] == Y;
    ReadDigitsAt(D + "/" + M + "/", Y, []);
  }

  /** `.map(Number)` over a string of digit characters. */
  function DigitValues(s: string): (r: seq<int>)
    requires AllDigits(s)
    ensures |r| == |s|
    ensures forall i :: 0 <= i < |s| ==> r[i] == DigitValue(s[i])
  {
    if s == [] then [] else [DigitValue(s[0])] + DigitValues(s[1..])
  }

  /** `.filter(n => n > 0)`. */
  function Positive(xs: seq<int>): (r: seq<int>)
    ensures |r| <= |xs|
    ensures forall i :: 0 <= i < |r| ==> r[i] > 0
  {
    if xs == [] then [] else (if xs[0] > 0 then [xs[0]] else []) + Positive(xs[1..])
  }

  /** The non-zero digit values of a digit string, in order. */
  function PositiveDigits(s: string): (r: seq<int>)
    requires AllDigits(s)
    ensures forall i :: 0 <= i < |r| ==> 1 <= r[i] <= 9
    ensures |r| <= |s|
  {
    PositiveBelow(DigitValues(s), 9);
    Positive(DigitValues(s))
  }

  /** Filtering keeps every element under a bound that all elements respect. */
  lemma {:induction false} PositiveBelow(xs: seq<int>, hi: int)
    requires forall i :: 0 <= i < |xs| ==> xs[i] <= hi
    ensures forall i :: 0 <= i < |Positive(xs)| ==> Positive(xs)[i] <= hi
  {
    if xs != [] {
      PositiveBelow(xs[1..], hi);
    }
  }

  /** `convertBirthDateToNumbers`. */
  function BirthDateDigits(d: Date): (r: seq<int>)
    ensures forall i :: 0 <= i < |r| ==> 1 <= r[i] <= 9
    ensures |r| <= |CompactDate(d)|
  {
    CompactDateDigits(d);
    PositiveDigits(CompactDate(d))
  }

  /** Number of elements of `xs` equal to `v`. */
  function Occurrences(xs: seq<int>, v: int): nat {
    if xs == [] then 0 else (if xs[0] == v then 1 else 0) + Occurrences(xs[1..], v)
  }

  lemma {:induction false} PositiveDigitsCount(s: string, v: int)
    requires AllDigits(s)
    requires 1 <= v <= 9
    ensures Occurrences(PositiveDigits(s), v) == CountChar(s, DigitChar(v))
    ensures |PositiveDigits(s)| == |s| - CountChar(s, '0')
  {
    if s != [] {
      PositiveDigitsCount(s[1..], v);
      var head := if DigitValue(s[0]) > 0 then [DigitValue(s[0])] else [];
      PositiveDigitsCons(s);
      OccurrencesAppend(head, PositiveDigits(s[1..]), v);
    }
  }

  /** The non-zero digits of a string: those of its first character, then
      those of the rest. */
  lemma PositiveDigitsCons(s: string)
    requires AllDigits(s) && s != []
    ensures PositiveDigits(s) == (if DigitValue(s[0]) > 0 then [DigitValue(s[0])] else []) + PositiveDigits(s[1..])
  {
    assert DigitValues(s)[1..] == DigitValues(s[1..]);
  }

  lemma {:induction false} OccurrencesAppend(xs: seq<int>, ys: seq<int>, v: int)
    ensures Occurrences(xs + ys, v) == Occurrences(xs, v) + Occurrences(ys, v)
  {
    if xs == [] {
      assert xs + ys == ys;
    } else {
      assert (xs + ys)[1..] == xs[1..] + ys;
      OccurrencesAppend(xs[1..], ys, v);
    }
  }

  /** The birth-date digits are the digits of the `ddMMyyyy` rendering with
      the zeros removed: each digit 1..9 occurs as often as its character
      occurs in the rendering, and the zeros are all that is dropped. For a
      four-digit year at most eight digits remain. */
  lemma BirthDateDigitsSpec(d: Date, v: int)
    requires 1 <= v <= 9
    ensures AllDigits(CompactDate(d))
    ensures Occurrences(BirthDateDigits(d), v) == CountChar(CompactDate(d), DigitChar(v))
    ensures |BirthDateDigits(d)| == |CompactDate(d)| - CountChar(CompactDate(d), '0')
    ensures ValidDate(d) && d.year <= 9999 ==> |BirthDateDigits(d)| <= 8
  {
    CompactDateDigits(d);
    PositiveDigitsCount(CompactDate(d), v);
    if ValidDate(d) && d.year <= 9999 {
      TwoDigitPad(d.day);
      TwoDigitPad(d.month);
      YearPad(d.year);
    }
  }

  lemma YearPad(y: nat)
    requires y <= 9999
    ensures |ZeroPad(y, 4)| == 4
  {
    if y >= 10 {
      assert NatToString(y) == NatToString(y / 10) + [DigitChar(y % 10)];
      if y >= 100 {
        assert NatToString(y / 10) == NatToString(y / 100) + [DigitChar((y / 10) % 10)];
        if y >= 1000 {
          assert NatToString(y / 100) == NatToString(y / 1000) + [DigitChar((y / 100) % 10)];
        }
      }
    }
  }

  lemma PositiveOfExample()
    ensures Positive([0, 5, 0, 1, 1, 9, 9, 0]) == [5, 1, 1, 9, 9]
  {
    assert [0][1..] == [];
    assert [9, 0][1..] == [0];
    assert [9, 9, 0][1..] == [9, 0];
    assert [1, 9, 9, 0][1..] == [9, 9, 0];
    assert [1, 1, 9, 9, 0][1..] == [1, 9, 9, 0];
    assert [0, 1, 1, 9, 9, 0][1..] == [1, 1, 9, 9, 0];
    assert [5, 0, 1, 1, 9, 9, 0][1..] == [0, 1, 1, 9, 9, 0];
    assert [0, 5, 0, 1, 1, 9, 9, 0][1..] == [5, 0, 1, 1, 9, 9, 0];
  }

  lemma DigitValuesOfExample()
    ensures AllDigits("05011990")
    ensures DigitValues("05011990") == [0, 5, 0, 1, 1, 9, 9, 0]
  {
  }

  lemma YearExample()
    ensures ZeroPad(1990, 4) == "1990"
  {
    assert NatToString(19) == NatToString(1) + "9";
    assert NatToString(199) == NatToString(19) + "9";
    assert NatToString(1990) == NatToString(199) + "0" == "1990";
  }

  lemma CompactDateExample()
    ensures CompactDate(Date(5, 1, 1990)) == "05011990"
  {
    YearExample();
    assert ZeroPad(5, 2) == "05";
    assert ZeroPad(1, 2) == "01";
  }

  /** 05/01/1990 gives the digits 5, 1, 1, 9, 9. */
  lemma BirthDateExample()
    ensures BirthDateDigits(Date(5, 1, 1990)) == [5, 1, 1, 9, 9]
  {
    CompactDateExample();
    DigitValuesOfExample();
    PositiveOfExample();
    assert PositiveDigits("05011990") == [5, 1, 1, 9, 9];
  }

  // ---------------------------------------------------------------------
  // Name decomposition
  // ---------------------------------------------------------------------

  /** `fullName.trim().split(' ').filter(part => part.length > 0)`: split on
      the space character only, not on other whitespace. */
  function NameParts(fullName: string): (parts: seq<string>)
    ensures forall i :: 0 <= i < |parts| ==> parts[i] != [] && ' ' !in parts[i]
  {
    NonEmpty(Split(Trim(fullName), ' '))
  }

  /** An all-whitespace name has no parts. */
  lemma EmptyNameHasNoParts(fullName: string)
    requires Trim(fullName) == []
    ensures NameParts(fullName) == []
  {
  }

  /** A name with no inner space is one part, whatever other whitespace it
      holds: a tab does not separate parts. */
  lemma NamePartsSingle(fullName: string)
    requires Trim(fullName) != [] && ' ' !in Trim(fullName)
    ensures NameParts(fullName) == [Trim(fullName)]
  {
    SplitFree(Trim(fullName), ' ');
    NonEmptyOne(Trim(fullName));
  }

  /** A space between two trimmed names separates their parts and nothing
      else: the parts of the whole are the parts of each side, in order.
      Repeated spaces give no empty parts. */
  lemma NamePartsAppend(a: string, b: string)
    requires Trim(a) == a && Trim(b) == b
    ensures NameParts(a + " " + b) == NameParts(a) + NameParts(b)
  {
    if a == [] {
      assert a + " " + b == " " + b;
      NamePartsAfterSpace(b);
      EmptyNameHasNoParts(a);
    } else if b == [] {
      assert a + " " + b == a + " ";
      NamePartsBeforeSpace(a);
      EmptyNameHasNoParts(b);
    } else {
      NamePartsAroundSpace(a, b);
    }
  }

  /** A space in front of a trimmed name adds no part. */
  lemma NamePartsAfterSpace(b: string)
    requires Trim(b) == b
    ensures NameParts(" " + b) == NameParts(b)
  {
    TrimSpaceFront(b);
  }

  /** A space behind a trimmed name adds no part. */
  lemma NamePartsBeforeSpace(a: string)
    requires Trim(a) == a && a != []
    ensures NameParts(a + " ") == NameParts(a)
  {
    TrimSpaceBack(a);
  }

  /** Between two non-empty trimmed names, the space splits the parts. */
  lemma NamePartsAroundSpace(a: string, b: string)
    requires Trim(a) == a && Trim(b) == b && a != [] && b != []
    ensures NameParts(a + " " + b) == NameParts(a) + NameParts(b)
  {
    var s := a + " " + b;
    TrimUnchanged(a);
    TrimUnchanged(b);
    assert s[0] == a[0] && s[|s| - 1] == b[|b| - 1];
    TrimUnchanged(s);
    SplitAround(a, b, ' ');
    NonEmptyAppend(Split(a, ' '), Split(b, ' '));
  }

  /** Two words without spaces, neither beginning nor ending with
      whitespace, joined by one space, are exactly the two parts. */
  lemma NamePartsTwo(a: string, b: string)
    requires a != [] && !IsJsWhitespace(a[0]) && !IsJsWhitespace(a[|a| - 1]) && ' ' !in a
    requires b != [] && !IsJsWhitespace(b[0]) && !IsJsWhitespace(b[|b| - 1]) && ' ' !in b
    ensures NameParts(a + " " + b) == [a, b]
  {
    TrimUnchanged(a);
    TrimUnchanged(b);
    NamePartsSingle(a);
    NamePartsSingle(b);
    NamePartsAppend(a, b);
  }

  /** The three name segments: the first part is the last name, the last part
      the first name, and the parts in between, joined by spaces, the middle
      name. */
  datatype NameSegments = NameSegments(last: string, middle: string, first: string)

  function Segments(parts: seq<string>): (n: NameSegments)
    requires |parts| >= 2
    ensures n.last == parts[0] && n.first == parts[|parts| - 1]
    ensures |parts| > 2 ==> n.last + " " + n.middle + " " + n.first == Join(" ", parts)
    ensures |parts| == 2 ==> n.last + " " + n.first == Join(" ", parts) && n.middle == ""
  {
    JoinAroundMiddle(parts);
    NameSegments(
      parts[0],
      if |parts| > 2 then Join(" ", parts[1..|parts| - 1]) else "",
      parts[|parts| - 1])
  }

  lemma {:induction false} JoinSnoc(sep: string, xs: seq<string>, x: string)
    requires |xs| >= 1
    ensures Join(sep, xs + [x]) == Join(sep, xs) + sep + x
  {
    if |xs| == 1 {
      assert (xs + [x])[1..] == [x];
    } else {
      assert (xs + [x])[1..] == xs[1..] + [x];
      JoinSnoc(sep, xs[1..], x);
    }
  }

  lemma JoinCons(sep: string, xs: seq<string>)
    requires |xs| >= 2
    ensures Join(sep, xs) == xs[0] + sep + Join(sep, xs[1..])
  {
  }

  /** The first part, the middle parts joined and the last part, put together
      with spaces, are all the parts joined by spaces. */
  lemma JoinAroundMiddle(parts: seq<string>)
    requires |parts| >= 2
    ensures |parts| > 2 ==>
      parts[0] + " " + Join(" ", parts[1..|parts| - 1]) + " " + parts[|parts| - 1] == Join(" ", parts)
    ensures |parts| == 2 ==> parts[0] + " " + parts[1] == Join(" ", parts)
  {
    if |parts| > 2 {
      JoinAround(parts);
    } else {
      JoinPair(parts);
    }
  }

  /** More than two parts: the middle ones joined sit between the first and
      the last. */
  lemma JoinAround(parts: seq<string>)
    requires |parts| > 2
    ensures parts[0] + " " + Join(" ", parts[1..|parts| - 1]) + " " + parts[|parts| - 1] == Join(" ", parts)
  {
    var n := |parts|;
    SplitEnds(parts);
    JoinAroundPieces(parts[0], parts[1..n - 1], parts[n - 1]);
  }

  /** A first piece, at least one middle piece and a last piece. */
  lemma JoinAroundPieces(a: string, inner: seq<string>, b: string)
    requires |inner| >= 1
    ensures a + " " + Join(" ", inner) + " " + b == Join(" ", [a] + inner + [b])
  {
    var xs := [a] + inner + [b];
    JoinCons(" ", xs);
    assert xs[1..] == inner + [b];
    JoinSnoc(" ", inner, b);
    Reassociate(a, Join(" ", inner), b);
  }

  /** A sequence of two or more is its first element, its middle and its last. */
  lemma SplitEnds<T>(xs: seq<T>)
    requires |xs| >= 2
    ensures xs == [xs[0]] + xs[1..|xs| - 1] + [xs[|xs| - 1]]
  {
  }

  lemma JoinPair(parts: seq<string>)
    requires |parts| == 2
    ensures parts[0] + " " + parts[1] == Join(" ", parts)
  {
    JoinCons(" ", parts);
    assert parts[1..] == [parts[1]];
  }

  lemma Reassociate(a: string, b: string, c: string)
    ensures a + " " + b + " " + c == a + " " + (b + " " + c)
  {
  }

  // ---------------------------------------------------------------------
  // Per-computation data and the grid
  // ---------------------------------------------------------------------

  /** Letter breakdowns kept for display beside the digit sequences. */
  datatype LetterData = LetterData(
    lastNameLetters: seq<LetterDigit>,
    middleNameLetters: seq<LetterDigit>,
    firstNameLetters: seq<LetterDigit>)

  datatype NumerologyData = NumerologyData(
    lastName: seq<int>,
    middleName: seq<int>,
    firstName: seq<int>,
    birthDate: seq<int>,
    letters: LetterData)

  datatype Source = LastName | MiddleName | FirstName | BirthDate

  datatype NumberInstance = NumberInstance(value: int, source: Source)

  datatype GridCell = GridCell(number: int, instances: seq<NumberInstance>)

  /** The digit sequence a source contributes. */
  function SourceDigits(d: NumerologyData, s: Source): seq<int> {
    match s
    case LastName => d.lastName
    case MiddleName => d.middleName
    case FirstName => d.firstName
    case BirthDate => d.birthDate
  }

  /** Position of a source in the fixed scan order. */
  function Rank(s: Source): nat {
    match s
    case LastName => 0
    case MiddleName => 1
    case FirstName => 2
    case BirthDate => 3
  }

  /** One instance per element of `xs` equal to `v`, in order. */
  function Matches(xs: seq<int>, v: int, s: Source): (r: seq<NumberInstance>)
    ensures forall i :: 0 <= i < |r| ==> r[i] == NumberInstance(v, s)
  {
    if xs == [] then []
    else (if xs[0] == v then [NumberInstance(v, s)] else []) + Matches(xs[1..], v, s)
  }

  predicate AllValued(xs: seq<NumberInstance>, v: int) {
    forall j :: 0 <= j < |xs| ==> xs[j].value == v
  }

  /** Four runs of instances with value `v` make one. */
  lemma ConcatValued(a: seq<NumberInstance>, b: seq<NumberInstance>, c: seq<NumberInstance>, e: seq<NumberInstance>, v: int)
    requires AllValued(a, v) && AllValued(b, v) && AllValued(c, v) && AllValued(e, v)
    ensures AllValued(a + b + c + e, v)
  {
    var xs := a + b + c + e;
    forall j | 0 <= j < |xs| ensures xs[j].value == v {
      if j < |a| { assert xs[j] == a[j]; }
      else if j < |a| + |b| { assert xs[j] == b[j - |a|]; }
      else if j < |a| + |b| + |c| { assert xs[j] == c[j - |a| - |b|]; }
      else { assert xs[j] == e[j - |a| - |b| - |c|]; }
    }
  }

  /** Cell `v`: the four sources scanned in order. Every instance in it has
      value `v`, and there is one per occurrence of `v` in the four digit
      sequences. */
  function Cell(d: NumerologyData, v: int): (c: GridCell)
    ensures c.number == v
    ensures AllValued(c.instances, v)
    ensures |c.instances| == Occurrences(d.lastName, v) + Occurrences(d.middleName, v)
                             + Occurrences(d.firstName, v) + Occurrences(d.birthDate, v)
  {
    var a := Matches(d.lastName, v, LastName);
    var b := Matches(d.middleName, v, MiddleName);
    var c := Matches(d.firstName, v, FirstName);
    var e := Matches(d.birthDate, v, BirthDate);
    MatchesCount(d.lastName, v, LastName, LastName);
    MatchesCount(d.middleName, v, MiddleName, MiddleName);
    MatchesCount(d.firstName, v, FirstName, FirstName);
    MatchesCount(d.birthDate, v, BirthDate, BirthDate);
    ConcatValued(a, b, c, e, v);
    GridCell(v, a + b + c + e)
  }

  function CellsFrom(d: NumerologyData, i: int): (g: seq<GridCell>)
    requires 1 <= i <= 10
    decreases 10 - i
    ensures |g| == 10 - i
    ensures forall k :: 0 <= k < |g| ==> g[k] == Cell(d, i + k)
  {
    if i == 10 then []
    else
      var rest := CellsFrom(d, i + 1);
      ConsIndex(Cell(d, i), rest);
      [Cell(d, i)] + rest
  }

  /** Past its head, a cons holds the tail one place further on. */
  lemma ConsIndex<T>(x: T, xs: seq<T>)
    ensures forall k :: 1 <= k <= |xs| ==> ([x] + xs)[k] == xs[k - 1]
  {
  }

  /** The grid: exactly nine cells numbered 1 to 9 in ascending order, every
      instance in a cell carrying the cell's number as its value, and cell
      `k + 1` holding what `Cell` collects for it (so `CellSourceCount` and
      `CellSourceOrder` describe the grid's own cells). */
  function BuildGrid(d: NumerologyData): (g: seq<GridCell>)
    ensures |g| == 9
    ensures forall k :: 0 <= k < 9 ==> g[k].number == k + 1
    ensures forall k, j :: 0 <= k < 9 && 0 <= j < |g[k].instances| ==> g[k].instances[j].value == k + 1
    ensures forall k :: 0 <= k < 9 ==> g[k] == Cell(d, k + 1)
  {
    var g := CellsFrom(d, 1);
    assert forall k | 0 <= k < 9 :: AllValued(g[k].instances, k + 1);
    g
  }

  /** Number of instances of `xs` that came from source `s`. */
  function FromSource(xs: seq<NumberInstance>, s: Source): nat {
    if xs == [] then 0 else (if xs[0].source == s then 1 else 0) + FromSource(xs[1..], s)
  }

  lemma {:induction false} FromSourceAppend(xs: seq<NumberInstance>, ys: seq<NumberInstance>, s: Source)
    ensures FromSource(xs + ys, s) == FromSource(xs, s) + FromSource(ys, s)
  {
    if xs == [] {
      assert xs + ys == ys;
    } else {
      assert (xs + ys)[1..] == xs[1..] + ys;
      FromSourceAppend(xs[1..], ys, s);
    }
  }

  lemma {:induction false} MatchesCount(xs: seq<int>, v: int, s: Source, t: Source)
    ensures |Matches(xs, v, s)| == Occurrences(xs, v)
    ensures FromSource(Matches(xs, v, s), t) == if s == t then Occurrences(xs, v) else 0
  {
    if xs != [] {
      MatchesCount(xs[1..], v, s, t);
      var head := if xs[0] == v then [NumberInstance(v, s)] else [];
      FromSourceAppend(head, Matches(xs[1..], v, s), t);
    }
  }

  /** In cell `v`, the instances from each source are exactly as many as the
      occurrences of `v` in that source's digits. */
  lemma CellSourceCount(d: NumerologyData, v: int, s: Source)
    ensures FromSource(Cell(d, v).instances, s) == Occurrences(SourceDigits(d, s), v)
  {
    var a := Matches(d.lastName, v, LastName);
    var b := Matches(d.middleName, v, MiddleName);
    var c := Matches(d.firstName, v, FirstName);
    var e := Matches(d.birthDate, v, BirthDate);
    MatchesCount(d.lastName, v, LastName, s);
    MatchesCount(d.middleName, v, MiddleName, s);
    MatchesCount(d.firstName, v, FirstName, s);
    MatchesCount(d.birthDate, v, BirthDate, s);
    FromSourceAppend(a, b, s);
    FromSourceAppend(a + b, c, s);
    FromSourceAppend(a + b + c, e, s);
  }

  /** Within a cell the instances are ordered last name, middle name, first
      name, birth date. */
  lemma CellSourceOrder(d: NumerologyData, v: int)
    ensures forall i, j :: 0 <= i < j < |Cell(d, v).instances| ==>
      Rank(Cell(d, v).instances[i].source) <= Rank(Cell(d, v).instances[j].source)
  {
    var a := Matches(d.lastName, v, LastName);
    var b := Matches(d.middleName, v, MiddleName);
    var c := Matches(d.firstName, v, FirstName);
    var e := Matches(d.birthDate, v, BirthDate);
    var xs := Cell(d, v).instances;
    forall i | 0 <= i < |xs| ensures Rank(xs[i].source) == if i < |a| then 0 else if i < |a| + |b| then 1 else if i < |a| + |b| + |c| then 2 else 3 {
      if i < |a| { assert xs[i] == a[i]; }
      else if i < |a| + |b| { assert xs[i] == b[i - |a|]; }
      else if i < |a| + |b| + |c| { assert xs[i] == c[i - |a| - |b|]; }
      else { assert xs[i] == e[i - |a| - |b| - |c|]; }
    }
  }

  /** Number of elements of `xs` in `lo..9`. */
  function CountFrom(xs: seq<int>, lo: int): nat {
    if xs == [] then 0 else (if lo <= xs[0] <= 9 then 1 else 0) + CountFrom(xs[1..], lo)
  }

  lemma {:induction false} CountFromStep(xs: seq<int>, lo: int)
    requires lo <= 9
    ensures CountFrom(xs, lo) == Occurrences(xs, lo) + CountFrom(xs, lo + 1)
  {
    if xs != [] {
      CountFromStep(xs[1..], lo);
    }
  }

  /** Total number of instances held by a sequence of cells. */
  function TotalInstances(g: seq<GridCell>): nat {
    if g == [] then 0 else |g[0].instances| + TotalInstances(g[1..])
  }

  /** Digits of `d` in `lo..9`, over all four sources. */
  function InRange(d: NumerologyData, lo: int): nat {
    CountFrom(d.lastName, lo) + CountFrom(d.middleName, lo) + CountFrom(d.firstName, lo) + CountFrom(d.birthDate, lo)
  }

  lemma {:induction false} CellsFromTotal(d: NumerologyData, i: int)
    requires 1 <= i <= 10
    decreases 10 - i
    ensures TotalInstances(CellsFrom(d, i)) == InRange(d, i)
  {
    if i == 10 {
      ZeroAbove(d.lastName);
      ZeroAbove(d.middleName);
      ZeroAbove(d.firstName);
      ZeroAbove(d.birthDate);
    } else {
      CellsFromTotal(d, i + 1);
      assert CellsFrom(d, i)[1..] == CellsFrom(d, i + 1);
      MatchesCount(d.lastName, i, LastName, LastName);
      MatchesCount(d.middleName, i, MiddleName, MiddleName);
      MatchesCount(d.firstName, i, FirstName, FirstName);
      MatchesCount(d.birthDate, i, BirthDate, BirthDate);
      CountFromStep(d.lastName, i);
      CountFromStep(d.middleName, i);
      CountFromStep(d.firstName, i);
      CountFromStep(d.birthDate, i);
    }
  }

  lemma {:induction false} ZeroAbove(xs: seq<int>)
    ensures CountFrom(xs, 10) == 0
  {
    if xs != [] {
      ZeroAbove(xs[1..]);
    }
  }

  /** No digit is dropped or duplicated by the grouping: the grid holds as
      many instances as there are elements in 1..9 across the four sources. */
  lemma GridTotal(d: NumerologyData)
    ensures TotalInstances(BuildGrid(d)) == InRange(d, 1)
  {
    CellsFromTotal(d, 1);
  }

  // ---------------------------------------------------------------------
  // calculateNumerology
  // ---------------------------------------------------------------------

  /** What one successful computation produces. */
  datatype Computation = Computation(data: NumerologyData, grid: seq<GridCell>)

  function MiddleText(parts: seq<string>): string
    requires |parts| >= 2
  {
    Segments(parts).middle
  }

  /** The data of a valid name and date. */
  function DataOf(a: Alphabet, parts: seq<string>, birthDate: Date): (d: NumerologyData)
    requires |parts| >= 2
    ensures d.lastName == ConvertToNumber(a, parts[0])
    ensures d.firstName == ConvertToNumber(a, parts[|parts| - 1])
    ensures |parts| == 2 ==> d.middleName == [] && d.letters.middleNameLetters == []
    ensures |parts| > 2 ==> d.middleName == ConvertToNumber(a, Join(" ", parts[1..|parts| - 1]))
    ensures d.birthDate == BirthDateDigits(birthDate)
    ensures d.letters.lastNameLetters == LetterNumberPairs(a, parts[0])
    ensures d.letters.firstNameLetters == LetterNumberPairs(a, parts[|parts| - 1])
    ensures |parts| > 2 ==> d.letters.middleNameLetters == LetterNumberPairs(a, Join(" ", parts[1..|parts| - 1]))
    ensures NumbersOf(d.letters.lastNameLetters) == d.lastName
    ensures NumbersOf(d.letters.middleNameLetters) == d.middleName
    ensures NumbersOf(d.letters.firstNameLetters) == d.firstName
  {
    var n := |parts|;
    PairsProjectToDigits(a, parts[0]);
    PairsProjectToDigits(a, parts[n - 1]);
    PairsProjectToDigits(a, MiddleText(parts));
    NumerologyData(
      ConvertToNumber(a, parts[0]),
      if n > 2 then ConvertToNumber(a, MiddleText(parts)) else [],
      ConvertToNumber(a, parts[n - 1]),
      BirthDateDigits(birthDate),
      LetterData(
        LetterNumberPairs(a, parts[0]),
        if n > 2 then LetterNumberPairs(a, MiddleText(parts)) else [],
        LetterNumberPairs(a, parts[n - 1])))
  }

  /** `calculateNumerology` without its state updates: nothing is computed
      for a blank name, a missing date, or fewer than two name parts. */
  function Calculate(a: Alphabet, fullName: string, birthDate: Option<Date>): (r: Option<Computation>)
    ensures r.None? <==> birthDate.None? || |NameParts(fullName)| < 2
    ensures r.Some? ==> r.value.data == DataOf(a, NameParts(fullName), birthDate.value)
    ensures r.Some? ==> r.value.grid == BuildGrid(r.value.data)
  {
    if Trim(fullName) == [] || birthDate.None? then None
    else
      var parts := NameParts(fullName);
      if |parts| < 2 then None
      else
        var data := DataOf(a, parts, birthDate.value);
        Some(Computation(data, BuildGrid(data)))
  }
}
