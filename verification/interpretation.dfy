/** The interpretation dialog: the prompt it builds for one grid cell or for
    the whole chart, the text it shows once the request settles, and its
    loading flag and open/close handling. */
module Interpretation {
  import opened Wrappers
  import opened Text
  import opened Numerology
  import PromptTemplate

  /** What the dialog is opened on: one grid cell, or the whole chart with the
      name as typed and the birth date already rendered `dd/MM/yyyy`. */
  datatype DialogData =
    | CellData(cell: GridCell)
    | GeneralData(fullName: string, birthDate: string, grid: seq<GridCell>)

  // ---------------------------------------------------------------------
  // Comma-separated lists
  // ---------------------------------------------------------------------

  /** The pieces of a `join(', ')` after the first, as `split(',')` sees them:
      each keeps the space that followed its comma. */
  function AfterComma(xs: seq<string>): (ys: seq<string>)
    ensures |ys| == |xs|
    ensures forall i :: 0 <= i < |xs| ==> ys[i] == " " + xs[i]
  {
    seq(|xs|, i requires 0 <= i < |xs| => " " + xs[i])
  }

  /** Drops the single space a `", "` separator leaves at the head of a piece. */
  function DropSpace(p: string): string {
    if p != [] && p[0] == ' ' then p[1..] else p
  }

  /** Drops the separator's space from every piece. */
  function DropSpaces(ps: seq<string>): seq<string> {
    seq(|ps|, i requires 0 <= i < |ps| => DropSpace(ps[i]))
  }

  /** Reads a `", "`-separated list back into its items: split at the commas,
      then drop the space after each one. */
  function ReadList(s: string): (items: seq<string>)
    ensures |items| >= 1
  {
    var pieces := Split(s, ',');
    [pieces[0]] + DropSpaces(pieces[1..])
  }

  /** A `", "` join is a `","` join of the same items with a space in front
      of every item but the first. */
  lemma {:induction false} JoinCommaSpace(pre: string, xs: seq<string>)
    requires |xs| >= 1
    decreases |xs|
    ensures Join([','], [pre + xs[0]] + AfterComma(xs[1..])) == pre + Join(", ", xs)
  {
    if |xs| > 1 {
      var tail := xs[1..];
      JoinCommaSpace(" ", tail);
      assert AfterComma(tail) == [" " + tail[0]] + AfterComma(tail[1..]);
      var parts := [pre + xs[0]] + AfterComma(tail);
      assert parts[1..] == AfterComma(tail);
      assert Join([','], parts) == (pre + xs[0]) + [','] + Join([','], AfterComma(tail));
      assert Join(", ", xs) == xs[0] + ", " + Join(", ", tail);
    } else {
      assert AfterComma(xs[1..]) == [];
    }
  }

  lemma JoinCommaSpaceStart(xs: seq<string>)
    requires |xs| >= 1
    ensures Join([','], [xs[0]] + AfterComma(xs[1..])) == Join(", ", xs)
  {
    JoinCommaSpace("", xs);
    assert "" + xs[0] == xs[0];
    assert "" + Join(", ", xs) == Join(", ", xs);
  }

  lemma SpacedCommaFree(xs: seq<string>)
    requires |xs| >= 1
    requires forall i :: 0 <= i < |xs| ==> ',' !in xs[i]
    ensures forall i :: 0 <= i < |xs| ==> ',' !in ([xs[0]] + AfterComma(xs[1..]))[i]
  {
    var spaced := [xs[0]] + AfterComma(xs[1..]);
    forall i | 0 <= i < |xs| ensures ',' !in spaced[i] {
      if i > 0 {
        assert spaced[i] == " " + xs[i];
      }
    }
  }

  lemma DropSpacesAfterComma(xs: seq<string>)
    ensures DropSpaces(AfterComma(xs)) == xs
  {
    forall i | 0 <= i < |xs| ensures DropSpace(" " + xs[i]) == xs[i] {
      assert (" " + xs[i])[1..] == xs[i];
    }
  }

  /** Reading back a `", "` join of comma-free items gives the items. */
  lemma ReadListJoin(xs: seq<string>)
    requires |xs| >= 1
    requires forall i :: 0 <= i < |xs| ==> ',' !in xs[i]
    ensures ReadList(Join(", ", xs)) == xs
  {
    var spaced := [xs[0]] + AfterComma(xs[1..]);
    JoinCommaSpaceStart(xs);
    SpacedCommaFree(xs);
    SplitJoin(spaced, ',');
    ReadListSpaced(Join(", ", xs), xs);
  }

  /** A text that splits at its commas into the items, each after the first
      with a space in front, reads back as the items. */
  lemma ReadListSpaced(s: string, xs: seq<string>)
    requires |xs| >= 1
    requires Split(s, ',') == [xs[0]] + AfterComma(xs[1..])
    ensures ReadList(s) == xs
  {
    assert Split(s, ',')[1..] == AfterComma(xs[1..]);
    DropSpacesAfterComma(xs[1..]);
    assert [xs[0]] + xs[1..] == xs;
  }

  // ---------------------------------------------------------------------
  // Source labels
  // ---------------------------------------------------------------------

  /** The Vietnamese name of a digit source. */
  function SourceLabel(s: Source): (l: string)
    ensures l != [] && ',' !in l
  {
    match s
    case LastName => "họ"
    case MiddleName => "tên đệm"
    case FirstName => "tên"
    case BirthDate => "ngày sinh"
  }

  /** The source a label names, if it names one. */
  function LabelSource(l: string): (r: Option<Source>)
    ensures r.Some? ==> SourceLabel(r.value) == l
  {
    if l == "họ" then Some(LastName)
    else if l == "tên đệm" then Some(MiddleName)
    else if l == "tên" then Some(FirstName)
    else if l == "ngày sinh" then Some(BirthDate)
    else None
  }

  /** Different sources have different labels: a label names its source back. */
  lemma LabelNamesSource(s: Source)
    ensures LabelSource(SourceLabel(s)) == Some(s)
  {
    assert |"họ"| == 2 && |"tên"| == 3 && |"tên đệm"| == 7 && |"ngày sinh"| == 9;
  }

  /** One label per instance, in instance order, duplicates kept. */
  function Labels(xs: seq<NumberInstance>): seq<string> {
    seq(|xs|, i requires 0 <= i < |xs| => SourceLabel(xs[i].source))
  }

  /** The `sources` text of the cell prompt. It names the source of every
      instance, in order and with repetitions, and nothing else: reading it
      back recovers the sources. */
  function SourceList(xs: seq<NumberInstance>): (r: string)
    ensures xs == [] ==> r == ""
    ensures |xs| >= 1 ==> |ReadList(r)| == |xs|
    ensures |xs| >= 1 ==> forall i :: 0 <= i < |xs| ==> LabelSource(ReadList(r)[i]) == Some(xs[i].source)
  {
    if xs == [] then Join(", ", Labels(xs))
    else
      LabelsReadBack(xs);
      Join(", ", Labels(xs))
  }

  lemma LabelsReadBack(xs: seq<NumberInstance>)
    requires |xs| >= 1
    ensures |ReadList(Join(", ", Labels(xs)))| == |xs|
    ensures forall i :: 0 <= i < |xs| ==> LabelSource(ReadList(Join(", ", Labels(xs)))[i]) == Some(xs[i].source)
  {
    var ls := Labels(xs);
    ReadListJoin(ls);
    forall i | 0 <= i < |xs| ensures LabelSource(ls[i]) == Some(xs[i].source) {
      LabelNamesSource(xs[i].source);
    }
  }

  /** The source list holds one comma fewer than there are instances, every
      comma is followed by a space, and the list is empty when there are no
      instances. */
  lemma SourceListCommas(xs: seq<NumberInstance>)
    ensures |xs| >= 1 ==> CountChar(SourceList(xs), ',') == |xs| - 1
    ensures CommasSpaced(SourceList(xs))
    ensures xs == [] ==> SourceList(xs) == ""
  {
    assert CountChar(", ", ',') == 1 by {
      assert ", "[1..] == " " && " "[1..] == "";
    }
    CountCharJoin(", ", Labels(xs), ',');
    JoinCommasSpaced(Labels(xs));
  }

  /** Every comma of `s` is followed by a space: the separator is `", "`. */
  predicate CommasSpaced(s: string) {
    forall i :: 0 <= i < |s| && s[i] == ',' ==> i + 1 < |s| && s[i + 1] == ' '
  }

  /** Comma-free items joined with `", "` have a space after every comma. */
  lemma {:induction false} JoinCommasSpaced(xs: seq<string>)
    requires forall i :: 0 <= i < |xs| ==> ',' !in xs[i]
    ensures CommasSpaced(Join(", ", xs))
  {
    if |xs| == 1 {
      assert ',' !in xs[0];
    } else if |xs| > 1 {
      JoinCommasSpaced(xs[1..]);
      CommasSpacedCons(xs[0], Join(", ", xs[1..]));
    }
  }

  lemma CommasSpacedCons(a: string, rest: string)
    requires ',' !in a && CommasSpaced(rest)
    ensures CommasSpaced(a + ", " + rest)
  {
    var s := a + ", " + rest;
    assert forall k :: 0 <= k < |a| ==> s[k] == a[k];
    forall i | 0 <= i < |s| && s[i] == ','
      ensures i + 1 < |s| && s[i + 1] == ' '
    {
      if i > |a| + 1 {
        assert s[i] == rest[i - |a| - 2];
        assert s[i + 1] == rest[i + 1 - |a| - 2];
      }
    }
  }

  // ---------------------------------------------------------------------
  // The cell prompt
  // ---------------------------------------------------------------------

  // The fixed text between the values, piece by piece.
  const CellIntro: string := "Hãy luận giải ý nghĩa của con số "
  const CellCount: string :=
    " trong thần số học Pythagoras. Con số "
    + "này xuất hiện "
  const CellSources: string := " lần từ các nguồn: "
  const CellAnalysis: string :=
    ".\n\nVui lòng phân tích:\n"
    + "1. Ý nghĩa cơ bản của con số "
  const CellImpact: string := "\n2. Tác động khi con số này xuất hiện "
  const CellInfluence: string :=
    " lần\n"
    + "3. Ảnh hưởng từ các nguồn khác nhau ("
  const CellClosing: string :=
    ")\n4. Lời khuyên và hướng phát triển\n\n"
    + "Trả lời bằng tiếng Việt một cách chi "
    + "tiết và dễ hiểu."

  /** The fixed pieces of a cell prompt, in order. */
  datatype CellTexts = CellTexts(
    intro: string, count: string, sources: string, analysis: string,
    impact: string, influence: string, closing: string)

  const CellText := CellTexts(CellIntro, CellCount, CellSources, CellAnalysis, CellImpact, CellInfluence, CellClosing)

  /** A cell prompt over given fixed pieces, with the cell number `n`, the
      instance count `k` and the source list `x` already written out; each of
      them appears twice. */
  function CellLayout(t: CellTexts, n: string, k: string, x: string): string {
    t.intro + (n + (t.count + (k + (t.sources + (x + CellRepeat(t, n, k, x))))))
  }

  /** The second half of a cell prompt, where the three values are repeated. */
  function CellRepeat(t: CellTexts, n: string, k: string, x: string): string {
    t.analysis + n + t.impact + k + t.influence + x + t.closing
  }

  /** The prompt for one cell. The cell number and the instance count can be
      read back where they are first written. */
  function CellPrompt(c: GridCell): (r: string)
    ensures |CellText.intro| + |IntToString(c.number)| + |CellText.count| <= |r|
    ensures c.number >= 0 ==> ReadNumberAt(r, |CellText.intro|) == c.number
    ensures c.number >= 0 ==>
      ReadNumberAt(r, |CellText.intro| + |IntToString(c.number)| + |CellText.count|) == |c.instances|
  {
    CellPromptWith(c.number, |c.instances|, SourceList(c.instances))
  }

  /** The cell prompt for a number, an instance count and a source list that
      is already written out. */
  function CellPromptWith(number: int, count: nat, x: string): (r: string)
    ensures |CellText.intro| + |IntToString(number)| + |CellText.count| <= |r|
    ensures number >= 0 ==> ReadNumberAt(r, |CellText.intro|) == number
    ensures number >= 0 ==>
      ReadNumberAt(r, |CellText.intro| + |IntToString(number)| + |CellText.count|) == count
  {
    var n, k := IntToString(number), NatToString(count);
    CellLayoutLength(CellText, n, k, x);
    if number >= 0 then
      CellFacts(number, count, x);
      CellLayout(CellText, n, k, x)
    else
      CellLayout(CellText, n, k, x)
  }

  /** The layout holds the opening text, the number and the count text. */
  lemma CellLayoutLength(t: CellTexts, n: string, k: string, x: string)
    ensures |t.intro| + |n| + |t.count| <= |CellLayout(t, n, k, x)|
  {
  }

  lemma CellFacts(n: int, instances: nat, x: string)
    requires n >= 0
    ensures ReadNumberAt(CellLayout(CellText, IntToString(n), NatToString(instances), x), |CellText.intro|) == n
    ensures ReadNumberAt(CellLayout(CellText, IntToString(n), NatToString(instances), x),
                         |CellText.intro| + |IntToString(n)| + |CellText.count|) == instances
  {
    CellTextsStartWithSpace();
    CellLayoutReadsBack(CellText, IntToString(n), n, NatToString(instances), instances, x);
  }

  /** The pieces that follow the two numbers start with a space, so neither
      number runs into the text after it. */
  lemma CellTextsStartWithSpace()
    ensures CellText.count != [] && CellText.count[0] == ' '
    ensures CellText.sources != [] && CellText.sources[0] == ' '
  {
  }

  /** Over any fixed pieces where the numbers are followed by a non-digit,
      both numbers read back and the source list stands verbatim after them. */
  lemma CellLayoutReadsBack(t: CellTexts, N: string, n: nat, K: string, k: nat, x: string)
    requires N == NatToString(n) && K == NatToString(k)
    requires t.count != [] && !IsDigitChar(t.count[0])
    requires t.sources != [] && !IsDigitChar(t.sources[0])
    ensures ReadNumberAt(CellLayout(t, N, K, x), |t.intro|) == n
    ensures ReadNumberAt(CellLayout(t, N, K, x), |t.intro| + |N| + |t.count|) == k
    ensures MatchAt(x, CellLayout(t, N, K, x), |t.intro| + |N| + |t.count| + |K| + |t.sources|)
  {
    TwoNumbersAndField(t.intro, N, n, t.count, K, k, t.sources, x, CellRepeat(t, N, K, x));
  }

  /** `a`, a number, `b`, a number, `c`, a field and the rest: both numbers
      read back and the field stands verbatim after `c`. */
  lemma TwoNumbersAndField(a: string, N: string, n: nat, b: string, M: string, m: nat, c: string, x: string, rest: string)
    requires N == NatToString(n) && M == NatToString(m)
    requires b != [] && !IsDigitChar(b[0])
    requires c != [] && !IsDigitChar(c[0])
    ensures ReadNumberAt(a + (N + (b + (M + (c + (x + rest))))), |a|) == n
    ensures ReadNumberAt(a + (N + (b + (M + (c + (x + rest))))), |a| + |N| + |b|) == m
    ensures |a| + |N| + |b| + |M| + |c| + |x| <= |a + (N + (b + (M + (c + (x + rest)))))|
    ensures (a + (N + (b + (M + (c + (x + rest))))))[|a| + |N| + |b| + |M| + |c|..|a| + |N| + |b| + |M| + |c| + |x|] == x
  {
    ReadBackTwo(a, N, n, b, M, m, c + (x + rest));
    FifthField(a, N, b, M, c, x, rest);
  }

  /** The field after four known pieces stands at the sum of their lengths. */
  lemma FifthField(a: string, N: string, b: string, M: string, c: string, x: string, rest: string)
    ensures var s := a + (N + (b + (M + (c + (x + rest)))));
      var at := |a| + |N| + |b| + |M| + |c|;
      at + |x| <= |s| && s[at..at + |x|] == x
  {
    var s := a + (N + (b + (M + (c + (x + rest)))));
    var at := |a| + |N| + |b| + |M| + |c|;
    forall i | 0 <= i < |x| ensures s[at + i] == x[i] {
      assert s[at + i] == (c + (x + rest))[|c| + i];
    }
  }

  /** `x` sits right after `a` in `a + (x + rest)`. */
  lemma FieldAt(a: string, x: string, rest: string)
    ensures |a| + |x| <= |a + (x + rest)|
    ensures (a + (x + rest))[|a|..|a| + |x|] == x
  {
    assert (a + (x + rest))[|a|..] == x + rest;
  }

  /** Three fields between known texts stand verbatim at their offsets. */
  lemma ThreeFields(a: string, x: string, b: string, y: string, c: string, z: string, rest: string)
    ensures var s := a + (x + (b + (y + (c + (z + rest)))));
      var at2 := |a| + |x| + |b|;
      var at3 := at2 + |y| + |c|;
      && at3 + |z| <= |s|
      && s[|a|..|a| + |x|] == x
      && s[at2..at2 + |y|] == y
      && s[at3..at3 + |z|] == z
  {
    FieldAt(a, x, b + (y + (c + (z + rest))));
    FifthField(a, x, b, y, c + (z + rest), [], []);
    FifthField(a, x, b, y, c, z, rest);
  }

  // ---------------------------------------------------------------------
  // The general prompt
  // ---------------------------------------------------------------------

  /** One grid entry of the summary: `Số n: k lần`. */
  function GridEntry(c: GridCell): string {
    EntryLayout(IntToString(c.number), NatToString(|c.instances|))
  }

  /** A grid entry with the cell number `n` and the count `k` written out. */
  function EntryLayout(n: string, k: string): string {
    EntryHead + (n + (EntrySep + (k + EntryTail)))
  }

  const EntryHead: string := "Số "
  const EntrySep: string := ": "
  const EntryTail: string := " lần"

  /** The fixed pieces of a grid entry: their lengths, and that the ones
      after a number start with a non-digit. */
  lemma EntryPieces()
    ensures |EntryHead| == 3 && |EntrySep| == 2 && |EntryTail| == 4
    ensures EntrySep[0] == ':' && EntryTail[0] == ' '
  {
  }

  /** The summary entries, one per cell in grid order. */
  function GridEntries(grid: seq<GridCell>): seq<string> {
    seq(|grid|, i requires 0 <= i < |grid| => GridEntry(grid[i]))
  }

  /** The summary lists every cell of the grid, in grid order, as an entry
      from which its number and instance count can be read back. */
  function GridSummary(grid: seq<GridCell>): (r: string)
    ensures grid == [] ==> r == ""
    ensures |grid| >= 1 && (forall i :: 0 <= i < |grid| ==> grid[i].number >= 0) ==>
      && |ReadList(r)| == |grid|
      && forall i :: 0 <= i < |grid| ==>
        var e, n := ReadList(r)[i], IntToString(grid[i].number);
        && 3 + |n| + 2 <= |e|
        && ReadNumberAt(e, 3) == grid[i].number
        && ReadNumberAt(e, 3 + |n| + 2) == |grid[i].instances|
  {
    if |grid| >= 1 && (forall i :: 0 <= i < |grid| ==> grid[i].number >= 0) then
      EntriesReadBack(grid);
      Join(", ", GridEntries(grid))
    else
      Join(", ", GridEntries(grid))
  }

  /** The summary separates its entries with `", "`: every comma is followed
      by a space. */
  lemma GridSummaryCommas(grid: seq<GridCell>)
    ensures CommasSpaced(GridSummary(grid))
  {
    var es := GridEntries(grid);
    forall i | 0 <= i < |es| ensures ',' !in es[i] {
      GridEntryCommaFree(grid[i]);
    }
    JoinCommasSpaced(es);
  }

  /** A grid entry holds no comma, so entries never run into each other. */
  lemma GridEntryCommaFree(c: GridCell)
    ensures ',' !in GridEntry(c)
  {
    var n, k := IntToString(c.number), NatToString(|c.instances|);
    assert ',' !in n by {
      if c.number < 0 {
        assert n == "-" + NatToString(-c.number);
        assert AllDigits(NatToString(-c.number));
      } else {
        assert AllDigits(n);
      }
    }
    assert ',' !in k by {
      assert AllDigits(k);
    }
    assert ',' !in "Số " && ',' !in ": " && ',' !in " lần";
  }

  /** The cell number and the instance count can be read back from a grid
      entry. */
  lemma GridEntryReadsBack(c: GridCell)
    requires c.number >= 0
    ensures 3 + |IntToString(c.number)| + 2 <= |GridEntry(c)|
    ensures ReadNumberAt(GridEntry(c), 3) == c.number
    ensures ReadNumberAt(GridEntry(c), 3 + |IntToString(c.number)| + 2) == |c.instances|
  {
    EntryLayoutReadsBack(IntToString(c.number), c.number, NatToString(|c.instances|), |c.instances|);
  }

  lemma EntryLayoutReadsBack(N: string, n: nat, K: string, k: nat)
    requires N == NatToString(n) && K == NatToString(k)
    ensures 3 + |N| + 2 <= |EntryLayout(N, K)|
    ensures ReadNumberAt(EntryLayout(N, K), 3) == n
    ensures ReadNumberAt(EntryLayout(N, K), 3 + |N| + 2) == k
  {
    EntryPieces();
    ReadBackTwo(EntryHead, N, n, EntrySep, K, k, EntryTail);
  }

  lemma EntriesReadBack(grid: seq<GridCell>)
    requires |grid| >= 1
    requires forall i :: 0 <= i < |grid| ==> grid[i].number >= 0
    ensures |ReadList(Join(", ", GridEntries(grid)))| == |grid|
    ensures forall i :: 0 <= i < |grid| ==>
      var e, n := ReadList(Join(", ", GridEntries(grid)))[i], IntToString(grid[i].number);
      && 3 + |n| + 2 <= |e|
      && ReadNumberAt(e, 3) == grid[i].number
      && ReadNumberAt(e, 3 + |n| + 2) == |grid[i].instances|
  {
    var es := GridEntries(grid);
    forall i | 0 <= i < |es| ensures ',' !in es[i] {
      GridEntryCommaFree(grid[i]);
    }
    ReadListJoin(es);
    forall i | 0 <= i < |grid|
      ensures 3 + |IntToString(grid[i].number)| + 2 <= |es[i]|
      ensures ReadNumberAt(es[i], 3) == grid[i].number
      ensures ReadNumberAt(es[i], 3 + |IntToString(grid[i].number)| + 2) == |grid[i].instances|
    {
      GridEntryReadsBack(grid[i]);
    }
  }

  const GeneralIntro: string :=
    "Hãy luận giải tổng quan thần số học "
    + "Pythagoras cho:\n- Họ tên: "
  const GeneralDate: string := "\n- Ngày sinh: "
  const GeneralGrid: string := "\n- Phân bố các con số: "
  const GeneralClosing: string :=
    "\n\nVui lòng phân tích:\n"
    + "1. Tổng quan về tính cách và đặc điểm "
    + "cá nhân\n"
    + "2. Điểm mạnh và điểm cần phát triển\n"
    + "3. Hướng nghề nghiệp phù hợp\n"
    + "4. Mối quan hệ và tương tác xã hội\n"
    + "5. Lời khuyên cho cuộc sống và phát "
    + "triển bản thân\n\n"
    + "Trả lời bằng tiếng Việt một cách chi "
    + "tiết, có cấu trúc rõ ràng và dễ hiểu."

  /** The prompt for the whole chart: the name, the rendered birth date and the
      grid summary inside fixed Vietnamese text. */
  function GeneralPrompt(fullName: string, birthDate: string, grid: seq<GridCell>): string {
    GeneralIntro + (fullName + (GeneralDate + (birthDate + (GeneralGrid + (GridSummary(grid) + GeneralClosing)))))
  }

  /** The name, the birth date and the summary stand verbatim at fixed
      offsets of the general prompt. */
  lemma GeneralPromptEmbeds(fullName: string, birthDate: string, grid: seq<GridCell>)
    ensures var p, summary := GeneralPrompt(fullName, birthDate, grid), GridSummary(grid);
      var at1 := |GeneralIntro|;
      var at2 := at1 + |fullName| + |GeneralDate|;
      var at3 := at2 + |birthDate| + |GeneralGrid|;
      && at3 + |summary| <= |p|
      && p[at1..at1 + |fullName|] == fullName
      && p[at2..at2 + |birthDate|] == birthDate
      && p[at3..at3 + |summary|] == summary
  {
    ThreeFields(GeneralIntro, fullName, GeneralDate, birthDate, GeneralGrid, GridSummary(grid), GeneralClosing);
  }

  /** `generatePrompt`: a cell prompt gives back the cell's number (what the
      general prompt holds is stated by `GeneralPromptEmbeds`). */
  function Prompt(d: DialogData): (p: string)
    ensures d.CellData? && d.cell.number >= 0 ==>
      |CellText.intro| <= |p| && ReadNumberAt(p, |CellText.intro|) == d.cell.number
  {
    match d
    case CellData(c) => CellPrompt(c)
    case GeneralData(name, date, grid) =>
      GeneralPrompt(name, date, grid)
  }

  /** The request `handleGetInterpretation` sends: the interpretation
      template with the prompt as its only value. The service receives the
      generated prompt itself, with nothing beside it. */
  function Request(d: DialogData): (m: PromptTemplate.Message)
    ensures m == PromptTemplate.Message(Prompt(d), None)
  {
    PromptTemplate.NumerologyPromptPassesThrough(Prompt(d));
    PromptTemplate.SendMessage(PromptTemplate.NumerologyInterpretation, [("prompt", Prompt(d))])
  }

  /** The request as the bridge builds it. */
  function RequestAsWritten(d: DialogData): PromptTemplate.Message {
    PromptTemplate.SendMessageAsWritten(PromptTemplate.NumerologyInterpretation, [("prompt", Prompt(d))])
  }

  /** As the bridge is written, the service receives the generated prompt
      with its `$` patterns expanded, so a name holding `$&` or `$'` is sent
      altered; a prompt without `$` is sent as generated. */
  lemma RequestAsWrittenCarriesPrompt(d: DialogData)
    ensures RequestAsWritten(d) == PromptTemplate.Message(PromptTemplate.Expand(Prompt(d), "{prompt}", [], []), None)
    ensures '$' !in Prompt(d) ==> RequestAsWritten(d) == Request(d)
  {
    PromptTemplate.NumerologyPromptAsWritten(Prompt(d));
  }

  // ---------------------------------------------------------------------
  // Outcome and dialog state
  // ---------------------------------------------------------------------

  /** How the request settled: a reply (possibly empty) or a thrown error. */
  datatype Outcome = Reply(text: string) | Failure(error: string)

  const NoConnectionMessage: string :=
    "Không thể kết nối với AI để luận giải. "
    + "Vui lòng thử lại sau."
  const ErrorMessage: string :=
    "Có lỗi xảy ra khi luận giải. Vui lòng "
    + "thử lại sau."

  /** The text shown once the request settles: the reply when it is
      non-empty, a fixed fallback otherwise. */
  function Displayed(o: Outcome): (t: string)
    ensures t != []
  {
    match o
    case Reply(text) => if text != [] then text else NoConnectionMessage
    case Failure(_) => ErrorMessage
  }

  /** A reply is shown unchanged exactly when it is non-empty; an empty reply
      and a failure show two different fixed messages, and the error itself
      never reaches the display. */
  lemma DisplayedCases(o: Outcome)
    ensures o.Reply? ==> (Displayed(o) == o.text <==> o.text != [])
    ensures o.Reply? && o.text == [] ==> Displayed(o) == NoConnectionMessage
    ensures o.Failure? ==> Displayed(o) == ErrorMessage
    ensures NoConnectionMessage != ErrorMessage
  {
    assert NoConnectionMessage[0] == 'K' && ErrorMessage[0] == 'C';
  }

  /** The dialog's own state: the interpretation shown and the loading flag. */
  datatype DialogState = DialogState(interpretation: string, loading: bool)

  const Idle := DialogState("", false)

  /** The start button is shown only while nothing is shown and nothing is
      outstanding. */
  predicate ShowsStart(st: DialogState) {
    st.interpretation == [] && !st.loading
  }

  /** The footer's re-interpret button is shown beside any shown text; it is
      disabled while a request is outstanding. */
  predicate ShowsReinterpret(st: DialogState) {
    st.interpretation != []
  }

  /** Some enabled button sends a request: the start button, or the
      re-interpret button while it is not disabled. */
  predicate CanRequest(st: DialogState) {
    ShowsStart(st) || (ShowsReinterpret(st) && !st.loading)
  }

  /** Pressing an enabled request button: loading begins, the shown text stays
      until the reply replaces it, and the request for `d` goes out; with no
      enabled button nothing happens. */
  function Begin(st: DialogState, d: DialogData): (r: (DialogState, Option<PromptTemplate.Message>))
    ensures r.1.Some? <==> CanRequest(st)
    ensures r.1.Some? ==> r.0 == st.(loading := true) && r.1.value.prompt == Prompt(d)
    ensures r.1.None? ==> r.0 == st
  {
    if !st.loading then (st.(loading := true), Some(Request(d)))
    else (st, None)
  }

  /** The request settles: the text for its outcome is shown and loading
      ends. */
  function Settle(st: DialogState, o: Outcome): (r: DialogState)
    ensures r.interpretation == Displayed(o)
    ensures !r.loading && !ShowsStart(r) && ShowsReinterpret(r)
  {
    DialogState(Displayed(o), false)
  }

  /** `handleOpenChange`: closing clears the interpretation, opening keeps it. */
  function OpenChange(st: DialogState, newOpen: bool): (r: DialogState)
    ensures r.loading == st.loading
    ensures newOpen ==> r == st
    ensures !newOpen ==> r.interpretation == []
  {
    if !newOpen then st.(interpretation := "") else st
  }

  /** A request can be sent exactly when none is outstanding, whatever is
      shown; in particular a second request never goes out before the first
      settles. */
  lemma RequestOnlyWhenIdle(st: DialogState, d: DialogData, d': DialogData)
    ensures CanRequest(st) <==> !st.loading
    ensures Begin(Begin(st, d).0, d').1.None?
  {
  }

  /** Re-interpreting shown text keeps it on screen while the new request is
      outstanding, and the outcome then replaces it. */
  lemma ReinterpretKeepsText(x: string, d: DialogData, o: Outcome)
    requires x != []
    ensures Begin(DialogState(x, false), d) == (DialogState(x, true), Some(Request(d)))
    ensures Settle(Begin(DialogState(x, false), d).0, o) == DialogState(Displayed(o), false)
  {
  }

  /** One full round from the start button: loading while outstanding, the
      settled text shown afterwards, and closing brings the button back. */
  lemma RoundTrip(d: DialogData, o: Outcome)
    ensures Begin(Idle, d).0.loading
    ensures Settle(Begin(Idle, d).0, o) == DialogState(Displayed(o), false)
    ensures OpenChange(Settle(Begin(Idle, d).0, o), false) == Idle
  {
  }
}
