/** The prompt catalog and the named-placeholder substitution applied in the
    preload bridge before a message is sent to the language-model service. */
module PromptTemplate {
  import opened Wrappers
  import opened Text
  import opened PromptCatalog

  // ---------------------------------------------------------------------
  // Catalog
  // ---------------------------------------------------------------------

  /** The names of the catalog; there are exactly three. */
  datatype PromptName = CheckViolations | GenerateCommit | NumerologyInterpretation

  /** A template is literal text interleaved with `{key}` placeholders. */
  datatype Segment = Lit(text: string) | Hole(key: string)

  function Placeholder(key: string): (p: string)
    ensures |p| == |key| + 2 && p[0] == '{' && p[|p| - 1] == '}'
    ensures p[1..|p| - 1] == key
  {
    "{" + key + "}"
  }

  /** The text of one segment. */
  function SegmentText(seg: Segment): string {
    match seg
    case Lit(t) => t
    case Hole(k) => Placeholder(k)
  }

  /** The template text of a segment list. */
  function Render(segs: seq<Segment>): string {
    if segs == [] then "" else SegmentText(segs[0]) + Render(segs[1..])
  }

  /** The placeholder keys of a segment list, in order. */
  function Holes(segs: seq<Segment>): (ks: seq<string>)
    ensures |ks| <= |segs|
  {
    if segs == [] then []
    else (if segs[0].Hole? then [segs[0].key] else []) + Holes(segs[1..])
  }

  /** The template of a catalog entry, as a segment list. */
  function Segments(name: PromptName): seq<Segment> {
    match name
    case CheckViolations => CheckViolationsSegments()
    case GenerateCommit => GenerateCommitSegments()
    case NumerologyInterpretation => [Hole("prompt")]
  }

  /** The code-review template: rules, diff and answer language. */
  function CheckViolationsSegments(): seq<Segment> {
    [
      Lit(CheckViolationsText1),
      Hole("coding_rules"),
      Lit(CheckViolationsText2),
      Hole("diff_content"),
      Lit(CheckViolationsText3),
      Hole("language"),
      Lit(CheckViolationsText4)]
  }

  /** The commit-message template: diff, deleted files and answer language. */
  function GenerateCommitSegments(): seq<Segment> {
    [
      Lit(GenerateCommitText1),
      Hole("diff_content"),
      Lit(GenerateCommitText2),
      Hole("deletedFiles"),
      Lit(GenerateCommitText3),
      Hole("language"),
      Lit(GenerateCommitText4)]
  }

  /** `PROMPT[name]`: every hole of the entry appears in its text as the
      placeholder, and the interpretation entry is the bare `{prompt}`. */
  function Template(name: PromptName): (r: string)
    ensures forall k :: k in Holes(Segments(name)) ==> Occurs(Placeholder(k), r)
    ensures name == NumerologyInterpretation ==> r == "{prompt}"
  {
    AllHolesOccur(Segments(name));
    RenderHole("prompt");
    Render(Segments(name))
  }

  /** The placeholders of the code-review template, in order of appearance. */
  lemma CheckViolationsPlaceholders()
    ensures Holes(Segments(CheckViolations)) == ["coding_rules", "diff_content", "language"]
  {
    AlternatingHoles(CheckViolationsText1, CheckViolationsText2, CheckViolationsText3, CheckViolationsText4,
                     "coding_rules", "diff_content", "language");
  }

  /** The placeholders of the commit-message template, in order of appearance. */
  lemma GenerateCommitPlaceholders()
    ensures Holes(Segments(GenerateCommit)) == ["diff_content", "deletedFiles", "language"]
  {
    AlternatingHoles(GenerateCommitText1, GenerateCommitText2, GenerateCommitText3, GenerateCommitText4,
                     "diff_content", "deletedFiles", "language");
  }

  /** Text, hole, text, hole, text, hole, text: the holes in order. */
  lemma AlternatingHoles(t1: string, t2: string, t3: string, t4: string, k1: string, k2: string, k3: string)
    ensures Holes([Lit(t1), Hole(k1), Lit(t2), Hole(k2), Lit(t3), Hole(k3), Lit(t4)]) == [k1, k2, k3]
  {
    var segs := [Lit(t1), Hole(k1), Lit(t2), Hole(k2), Lit(t3), Hole(k3), Lit(t4)];
    assert segs == [segs[0]] + [segs[1]] + [segs[2]] + [segs[3]] + [segs[4]] + [segs[5]] + [segs[6]];
    HolesAppend([segs[0]] + [segs[1]] + [segs[2]] + [segs[3]] + [segs[4]] + [segs[5]], [segs[6]]);
    HolesAppend([segs[0]] + [segs[1]] + [segs[2]] + [segs[3]] + [segs[4]], [segs[5]]);
    HolesAppend([segs[0]] + [segs[1]] + [segs[2]] + [segs[3]], [segs[4]]);
    HolesAppend([segs[0]] + [segs[1]] + [segs[2]], [segs[3]]);
    HolesAppend([segs[0]] + [segs[1]], [segs[2]]);
    HolesAppend([segs[0]], [segs[1]]);
  }

  lemma {:induction false} HolesAppend(a: seq<Segment>, b: seq<Segment>)
    ensures Holes(a + b) == Holes(a) + Holes(b)
  {
    if a == [] {
      assert a + b == b;
    } else {
      var h := if a[0].Hole? then [a[0].key] else [];
      TailAppend(a, b);
      assert Holes(a + b) == h + Holes(a[1..] + b);
      HolesAppend(a[1..], b);
      AppendAssoc(h, Holes(a[1..]), Holes(b));
    }
  }

  /** No template of the catalog has a placeholder for the pass-through key. */
  lemma CatalogHasNoPassThroughPlaceholder(n: PromptName)
    ensures PassThroughKey !in Holes(Segments(n))
  {
    match n
    case CheckViolations =>
      ShorterKeysAbsent(PassThroughKey, ["coding_rules", "diff_content", "language"]);
      CheckViolationsPlaceholders();
    case GenerateCommit =>
      ShorterKeysAbsent(PassThroughKey, ["diff_content", "deletedFiles", "language"]);
      GenerateCommitPlaceholders();
    case NumerologyInterpretation =>
      ShorterKeysAbsent(PassThroughKey, ["prompt"]);
      assert Holes([Hole("prompt")]) == ["prompt"];
  }

  lemma ShorterKeysAbsent(k: string, ks: seq<string>)
    requires forall i :: 0 <= i < |ks| ==> |ks[i]| < |k|
    ensures k !in ks
  {
  }

  /** Every listed placeholder appears in the rendered template text. */
  lemma {:induction false} HolesOccur(segs: seq<Segment>, k: string)
    requires k in Holes(segs)
    ensures Occurs(Placeholder(k), Render(segs))
  {
    if segs[0] == Hole(k) {
      HoleOccurs([], k, segs[1..]);
      assert [] + [Hole(k)] + segs[1..] == segs;
    } else {
      HolesOccur(segs[1..], k);
      var head := SegmentText(segs[0]);
      assert Render(segs) == head + Render(segs[1..]);
      OccursExtend(Placeholder(k), head, Render(segs[1..]));
    }
  }

  lemma AllHolesOccur(segs: seq<Segment>)
    ensures forall k :: k in Holes(segs) ==> Occurs(Placeholder(k), Render(segs))
  {
    forall k | k in Holes(segs) ensures Occurs(Placeholder(k), Render(segs)) {
      HolesOccur(segs, k);
    }
  }

  /** A hole renders as its placeholder between the text before and after it. */
  lemma HoleOccurs(a: seq<Segment>, k: string, b: seq<Segment>)
    ensures Occurs(Placeholder(k), Render(a + [Hole(k)] + b))
  {
    RenderAppend(a + [Hole(k)], b);
    RenderAppend(a, [Hole(k)]);
    RenderHole(k);
    OccursBetween(Render(a), Placeholder(k), Render(b));
  }

  lemma RenderHole(k: string)
    ensures Render([Hole(k)]) == Placeholder(k)
  {
    assert [Hole(k)][1..] == [];
  }

  lemma {:induction false} RenderAppend(xs: seq<Segment>, ys: seq<Segment>)
    ensures Render(xs + ys) == Render(xs) + Render(ys)
  {
    if xs == [] {
      assert xs + ys == ys;
    } else {
      TailAppend(xs, ys);
      RenderAppend(xs[1..], ys);
    }
  }

  // ---------------------------------------------------------------------
  // replaceAll
  // ---------------------------------------------------------------------

  /** Literal all-occurrences replacement, scanning left to right from `pos`
      and resuming after each match, as `String.prototype.replaceAll` finds
      its matches. The replacement is inserted verbatim. */
  function ReplaceFrom(s: string, pos: nat, pat: string, rep: string): string
    requires |pat| > 0 && pos <= |s|
    decreases |s| - pos
  {
    if pos + |pat| > |s| then s[pos..]
    else if MatchAt(pat, s, pos) then rep + ReplaceFrom(s, pos + |pat|, pat, rep)
    else [s[pos]] + ReplaceFrom(s, pos + 1, pat, rep)
  }

  /** `s.replaceAll(pat, rep)` with the replacement taken literally (what it
      replaces is stated by `ReplaceAllAbsent`, `ReplaceOccurrence` and
      `ReplaceJoin`). */
  function ReplaceAll(s: string, pat: string, rep: string): string
    requires |pat| > 0
  {
    ReplaceFrom(s, 0, pat, rep)
  }

  /** The replacement-pattern expansion `replaceAll` applies to a string
      replacement when the search value is a string: `$$` is a dollar sign,
      `$&` the matched text, `` $` `` the text before the match, `$'` the
      text after it; any other `$` is kept. */
  function Expand(rep: string, matched: string, before: string, after: string): string
    decreases |rep|
  {
    if rep == [] then []
    else if rep[0] == '$' && |rep| >= 2 && rep[1] in "$&`'" then
      (if rep[1] == '$' then "$"
       else if rep[1] == '&' then matched
       else if rep[1] == '`' then before
       else after) + Expand(rep[2..], matched, before, after)
    else [rep[0]] + Expand(rep[1..], matched, before, after)
  }

  /** `replaceAll` as the bridge calls it: every match is replaced by the
      expansion of the value. */
  function ReplaceFromAsWritten(s: string, pos: nat, pat: string, rep: string): string
    requires |pat| > 0 && pos <= |s|
    decreases |s| - pos
  {
    if pos + |pat| > |s| then s[pos..]
    else if MatchAt(pat, s, pos) then
      Expand(rep, pat, s[..pos], s[pos + |pat|..]) + ReplaceFromAsWritten(s, pos + |pat|, pat, rep)
    else [s[pos]] + ReplaceFromAsWritten(s, pos + 1, pat, rep)
  }

  function ReplaceAllAsWritten(s: string, pat: string, rep: string): string
    requires |pat| > 0
  {
    ReplaceFromAsWritten(s, 0, pat, rep)
  }

  lemma {:induction false} ExpandWithoutDollar(rep: string, matched: string, before: string, after: string)
    requires '$' !in rep
    ensures Expand(rep, matched, before, after) == rep
  {
    if rep != [] {
      assert '$' !in rep[1..] by {
        forall i | 0 <= i < |rep[1..]| ensures rep[1..][i] != '$' {
          assert rep[1..][i] == rep[i + 1];
        }
      }
      ExpandWithoutDollar(rep[1..], matched, before, after);
      assert [rep[0]] + rep[1..] == rep;
    }
  }

  /** For a value without `$` the bridge's replacement is the literal one. */
  lemma {:induction false} AsWrittenAgreesWithoutDollar(s: string, pos: nat, pat: string, rep: string)
    requires |pat| > 0 && pos <= |s|
    requires '$' !in rep
    decreases |s| - pos
    ensures ReplaceFromAsWritten(s, pos, pat, rep) == ReplaceFrom(s, pos, pat, rep)
  {
    if pos + |pat| <= |s| {
      if MatchAt(pat, s, pos) {
        AsWrittenAgreesWithoutDollar(s, pos + |pat|, pat, rep);
        AgreeAtMatch(s, pos, pat, rep);
      } else {
        AsWrittenAgreesWithoutDollar(s, pos + 1, pat, rep);
        AgreeElsewhere(s, pos, pat, rep);
      }
    }
  }

  lemma AgreeElsewhere(s: string, pos: nat, pat: string, rep: string)
    requires |pat| > 0 && pos + |pat| <= |s| && !MatchAt(pat, s, pos)
    requires ReplaceFromAsWritten(s, pos + 1, pat, rep) == ReplaceFrom(s, pos + 1, pat, rep)
    ensures ReplaceFromAsWritten(s, pos, pat, rep) == ReplaceFrom(s, pos, pat, rep)
  {
  }

  lemma AgreeAtMatch(s: string, pos: nat, pat: string, rep: string)
    requires |pat| > 0 && pos + |pat| <= |s| && MatchAt(pat, s, pos)
    requires '$' !in rep
    requires ReplaceFromAsWritten(s, pos + |pat|, pat, rep) == ReplaceFrom(s, pos + |pat|, pat, rep)
    ensures ReplaceFromAsWritten(s, pos, pat, rep) == ReplaceFrom(s, pos, pat, rep)
  {
    ExpandWithoutDollar(rep, pat, s[..pos], s[pos + |pat|..]);
  }

  /** No match of `pat` starts in `a..b`. */
  predicate NoMatchBetween(pat: string, s: string, a: int, b: int) {
    forall p :: a <= p < b ==> !MatchAt(pat, s, p)
  }

  /** Positions `a..b` hold no match: the scan copies them unchanged. */
  lemma {:induction false} CopyRun(s: string, a: nat, b: nat, pat: string, rep: string)
    requires |pat| > 0 && a <= b <= |s|
    requires NoMatchBetween(pat, s, a, b)
    decreases b - a
    ensures ReplaceFrom(s, a, pat, rep) == s[a..b] + ReplaceFrom(s, b, pat, rep)
  {
    if a < b {
      if a + |pat| > |s| {
        CopyNearEnd(s, a, b, pat, rep);
      } else {
        CopyRun(s, a + 1, b, pat, rep);
        CopyOne(s, a, b, pat, rep);
      }
    }
  }

  lemma CopyNearEnd(s: string, a: nat, b: nat, pat: string, rep: string)
    requires |pat| > 0 && a <= b <= |s| && a + |pat| > |s|
    ensures ReplaceFrom(s, a, pat, rep) == s[a..b] + ReplaceFrom(s, b, pat, rep)
  {
    ReplaceTail(s, a, pat, rep);
    ReplaceTail(s, b, pat, rep);
    SliceSplit(s, a, b);
  }

  lemma CopyOne(s: string, a: nat, b: nat, pat: string, rep: string)
    requires |pat| > 0 && a < b <= |s| && a + |pat| <= |s| && !MatchAt(pat, s, a)
    requires ReplaceFrom(s, a + 1, pat, rep) == s[a + 1..b] + ReplaceFrom(s, b, pat, rep)
    ensures ReplaceFrom(s, a, pat, rep) == s[a..b] + ReplaceFrom(s, b, pat, rep)
  {
    ReplaceElsewhere(s, a, pat, rep);
    assert s[a..b] == [s[a]] + s[a + 1..b];
  }

  /** Too close to the end for a match: the rest is copied. */
  lemma ReplaceTail(s: string, pos: nat, pat: string, rep: string)
    requires |pat| > 0 && pos <= |s| && pos + |pat| > |s|
    ensures ReplaceFrom(s, pos, pat, rep) == s[pos..]
  {
  }

  /** A match is replaced and the scan resumes after it. */
  lemma ReplaceAtMatch(s: string, pos: nat, pat: string, rep: string)
    requires |pat| > 0 && pos + |pat| <= |s| && MatchAt(pat, s, pos)
    ensures ReplaceFrom(s, pos, pat, rep) == rep + ReplaceFrom(s, pos + |pat|, pat, rep)
  {
  }

  /** Without a match the character is copied and the scan moves on by one. */
  lemma ReplaceElsewhere(s: string, pos: nat, pat: string, rep: string)
    requires |pat| > 0 && pos + |pat| <= |s| && !MatchAt(pat, s, pos)
    ensures ReplaceFrom(s, pos, pat, rep) == [s[pos]] + ReplaceFrom(s, pos + 1, pat, rep)
  {
  }

  /** Text without an occurrence of the pattern is returned unchanged. */
  lemma ReplaceAllAbsent(s: string, pat: string, rep: string)
    requires |pat| > 0
    requires !Occurs(pat, s)
    ensures ReplaceAll(s, pat, rep) == s
  {
    CopyRun(s, 0, |s|, pat, rep);
  }

  /** The scan of a suffix does not depend on what precedes it. */
  lemma ReplaceShift(p: string, t: string, j: nat, pat: string, rep: string)
    requires |pat| > 0 && j <= |t|
    ensures ReplaceFrom(p + t, |p| + j, pat, rep) == ReplaceFrom(t, j, pat, rep)
  {
    ShiftFrom(p, t, j, pat, rep);
  }

  /** The scan of `p + t` from `|p| + j` agrees with the scan of `t` from `j`. */
  predicate ShiftAgrees(p: string, t: string, j: nat, pat: string, rep: string)
    requires |pat| > 0 && j <= |t|
  {
    ReplaceFrom(p + t, |p| + j, pat, rep) == ReplaceFrom(t, j, pat, rep)
  }

  lemma {:induction false} ShiftFrom(p: string, t: string, j: nat, pat: string, rep: string)
    requires |pat| > 0 && j <= |t|
    decreases |t| - j
    ensures ShiftAgrees(p, t, j, pat, rep)
  {
    if j + |pat| > |t| {
      ShiftTail(p, t, j, pat, rep);
    } else {
      ShiftFrom(p, t, j + |pat|, pat, rep);
      ShiftFrom(p, t, j + 1, pat, rep);
      ShiftStep(p, t, j, pat, rep);
    }
  }

  /** One step of the scan, whether or not a match starts at `j`. */
  lemma ShiftStep(p: string, t: string, j: nat, pat: string, rep: string)
    requires |pat| > 0 && j + |pat| <= |t|
    requires ShiftAgrees(p, t, j + |pat|, pat, rep) && ShiftAgrees(p, t, j + 1, pat, rep)
    ensures ShiftAgrees(p, t, j, pat, rep)
  {
    if MatchAt(pat, t, j) {
      ShiftMatch(p, t, j, pat, rep);
    } else {
      ShiftOther(p, t, j, pat, rep);
    }
  }

  lemma ShiftTail(p: string, t: string, j: nat, pat: string, rep: string)
    requires |pat| > 0 && j <= |t| && j + |pat| > |t|
    ensures ShiftAgrees(p, t, j, pat, rep)
  {
    assert (p + t)[|p| + j..] == t[j..];
  }

  lemma ShiftMatch(p: string, t: string, j: nat, pat: string, rep: string)
    requires |pat| > 0 && j + |pat| <= |t| && MatchAt(pat, t, j)
    requires ShiftAgrees(p, t, j + |pat|, pat, rep)
    ensures ShiftAgrees(p, t, j, pat, rep)
  {
    assert (p + t)[|p| + j..|p| + j + |pat|] == t[j..j + |pat|];
  }

  lemma ShiftOther(p: string, t: string, j: nat, pat: string, rep: string)
    requires |pat| > 0 && j + |pat| <= |t| && !MatchAt(pat, t, j)
    requires ShiftAgrees(p, t, j + 1, pat, rep)
    ensures ShiftAgrees(p, t, j, pat, rep)
  {
    assert (p + t)[|p| + j..|p| + j + |pat|] == t[j..j + |pat|];
    assert (p + t)[|p| + j] == t[j];
  }

  /** No match starts at a character other than the pattern's first. */
  lemma FirstCharMismatch(pat: string, s: string, p: nat)
    requires |pat| > 0 && p < |s| && s[p] != pat[0]
    ensures !MatchAt(pat, s, p)
  {
    if p + |pat| <= |s| {
      assert s[p..p + |pat|][0] == s[p];
    }
  }

  /** The first occurrence is replaced and the scan carries on over the
      rest, where every later occurrence is replaced in turn. */
  lemma ReplaceOccurrence(a: string, pat: string, b: string, rep: string)
    requires |pat| > 0 && pat[0] !in a
    ensures ReplaceAll(a + pat + b, pat, rep) == a + rep + ReplaceAll(b, pat, rep)
  {
    var s := a + pat + b;
    var afterA := ReplaceFrom(s, |a|, pat, rep);
    var afterPat := ReplaceFrom(s, |a| + |pat|, pat, rep);
    assert ReplaceFrom(s, 0, pat, rep) == a + afterA by {
      NoMatchInPrefix(a, pat, b);
      CopyRun(s, 0, |a|, pat, rep);
      assert s[0..|a|] == a;
    }
    assert afterA == rep + afterPat by {
      assert MatchAt(pat, s, |a|) by {
        assert s[|a|..|a| + |pat|] == pat;
      }
      ReplaceAtMatch(s, |a|, pat, rep);
    }
    assert afterPat == ReplaceAll(b, pat, rep) by {
      assert |a + pat| == |a| + |pat|;
      ReplaceAfterPrefix(a + pat, b, pat, rep);
    }
    Stitch(ReplaceFrom(s, 0, pat, rep), a, rep, afterA, afterPat);
  }

  /** Scanning `p + b` from the end of `p` is scanning `b` from its start. */
  lemma ReplaceAfterPrefix(p: string, b: string, pat: string, rep: string)
    requires |pat| > 0
    ensures ReplaceFrom(p + b, |p|, pat, rep) == ReplaceAll(b, pat, rep)
  {
    ReplaceShift(p, b, 0, pat, rep);
  }

  /** `w` is `a` then `m`, and `m` is `r` then `n`: so `w` is `a`, `r`, `n`. */
  lemma Stitch<T>(w: seq<T>, a: seq<T>, r: seq<T>, m: seq<T>, n: seq<T>)
    requires w == a + m && m == r + n
    ensures w == a + r + n
  {
    AppendAssoc(a, r, n);
  }

  lemma NoMatchInPrefix(a: string, pat: string, b: string)
    requires |pat| > 0 && pat[0] !in a
    ensures NoMatchBetween(pat, a + pat + b, 0, |a|)
  {
    var s := a + pat + b;
    forall p | 0 <= p < |a| ensures !MatchAt(pat, s, p) {
      assert s[p] == a[p];
      FirstCharMismatch(pat, s, p);
    }
  }

  /** Every occurrence is replaced: a text made of pieces joined by the
      pattern, none holding the pattern's first character, becomes the same
      pieces joined by the replacement. */
  lemma {:induction false} ReplaceJoin(xs: seq<string>, pat: string, rep: string)
    requires |pat| > 0
    requires forall i :: 0 <= i < |xs| ==> pat[0] !in xs[i]
    ensures ReplaceAll(Join(pat, xs), pat, rep) == Join(rep, xs)
  {
    if |xs| == 0 {
      ReplaceTail("", 0, pat, rep);
    } else if |xs| == 1 {
      assert !Occurs(pat, xs[0]) by {
        forall p | 0 <= p <= |xs[0]| - |pat| ensures !MatchAt(pat, xs[0], p) {
          FirstCharMismatch(pat, xs[0], p);
        }
      }
      ReplaceAllAbsent(xs[0], pat, rep);
    } else {
      ReplaceJoin(xs[1..], pat, rep);
      ReplaceOccurrence(xs[0], pat, Join(pat, xs[1..]), rep);
    }
  }

  /** Replacing the pattern by itself changes nothing. */
  lemma {:induction false} ReplaceBySelf(s: string, pos: nat, pat: string)
    requires |pat| > 0 && pos <= |s|
    decreases |s| - pos
    ensures ReplaceFrom(s, pos, pat, pat) == s[pos..]
  {
    if pos + |pat| <= |s| {
      assert ReplaceFrom(s, pos + |pat|, pat, pat) == s[pos + |pat|..] by {
        ReplaceBySelf(s, pos + |pat|, pat);
      }
      assert ReplaceFrom(s, pos + 1, pat, pat) == s[pos + 1..] by {
        ReplaceBySelf(s, pos + 1, pat);
      }
      SelfStep(s, pos, pat);
    } else {
      ReplaceTail(s, pos, pat, pat);
    }
  }

  /** One step of the scan with the pattern as its own replacement. */
  lemma SelfStep(s: string, pos: nat, pat: string)
    requires |pat| > 0 && pos + |pat| <= |s|
    requires ReplaceFrom(s, pos + |pat|, pat, pat) == s[pos + |pat|..]
    requires ReplaceFrom(s, pos + 1, pat, pat) == s[pos + 1..]
    ensures ReplaceFrom(s, pos, pat, pat) == s[pos..]
  {
    if MatchAt(pat, s, pos) {
      SelfAtMatch(s, pos, pat);
    } else {
      SelfElsewhere(s, pos, pat);
    }
  }

  lemma SelfAtMatch(s: string, pos: nat, pat: string)
    requires |pat| > 0 && pos + |pat| <= |s| && MatchAt(pat, s, pos)
    requires ReplaceFrom(s, pos + |pat|, pat, pat) == s[pos + |pat|..]
    ensures ReplaceFrom(s, pos, pat, pat) == s[pos..]
  {
    SliceSplit(s, pos, pos + |pat|);
  }

  lemma SelfElsewhere(s: string, pos: nat, pat: string)
    requires |pat| > 0 && pos + |pat| <= |s| && !MatchAt(pat, s, pos)
    requires ReplaceFrom(s, pos + 1, pat, pat) == s[pos + 1..]
    ensures ReplaceFrom(s, pos, pat, pat) == s[pos..]
  {
    SliceSplit(s, pos, pos + 1);
    assert s[pos..pos + 1] == [s[pos]];
  }

  predicate BraceFree(key: string) {
    '{' !in key && '}' !in key
  }

  /** A brace-delimited token: an opening brace, a closing brace at the end,
      and no brace in between. */
  predicate Delimited(t: string) {
    && |t| >= 2 && t[0] == '{' && t[|t| - 1] == '}'
    && forall q :: 0 < q < |t| - 1 ==> t[q] != '{' && t[q] != '}'
  }

  /** The placeholder of a brace-free key is a delimited token. */
  lemma PlaceholderDelimited(k: string)
    requires BraceFree(k)
    ensures Delimited(Placeholder(k))
  {
    var p := Placeholder(k);
    forall q | 0 < q < |p| - 1 ensures p[q] != '{' && p[q] != '}' {
      assert p[q] == k[q - 1];
    }
  }

  /** Different keys have different placeholders. */
  lemma PlaceholderInjective(j: string, k: string)
    requires j != k
    ensures Placeholder(j) != Placeholder(k)
  {
    var P, Q := Placeholder(j), Placeholder(k);
    assert P[1..|P| - 1] == j;
    assert Q[1..|Q| - 1] == k;
  }

  /** Two different delimited tokens cannot match at the same position. */
  lemma DelimitedDiffer(s: string, i: int, P: string, Q: string)
    requires Delimited(P) && Delimited(Q) && P != Q
    requires MatchAt(Q, s, i)
    ensures !MatchAt(P, s, i)
  {
    if |P| < |Q| {
      assert s[i + |P| - 1] == Q[|P| - 1] != '}';
      assert i + |P| <= |s| && s[i..i + |P|][|P| - 1] == s[i + |P| - 1];
    } else if |Q| < |P| {
      assert s[i + |Q| - 1] == Q[|Q| - 1] == '}';
      assert P[|Q| - 1] != '}';
      assert i + |P| <= |s| ==> s[i..i + |P|][|Q| - 1] == s[i + |Q| - 1];
    } else {
      assert s[i..i + |Q|] == Q;
    }
  }

  /** No match of `P` starts inside a match of `Q`. */
  lemma NoMatchInside(s: string, i: nat, p: nat, P: string, Q: string)
    requires Delimited(P) && Delimited(Q) && P != Q
    requires MatchAt(Q, s, i) && i <= p < i + |Q|
    ensures !MatchAt(P, s, p)
  {
    if p == i {
      DelimitedDiffer(s, i, P, Q);
    } else {
      assert s[p] == s[i..i + |Q|][p - i] == Q[p - i] != '{';
      assert p + |P| <= |s| ==> s[p..p + |P|][0] == s[p];
    }
  }

  lemma NoMatchesInside(s: string, i: nat, P: string, Q: string)
    requires Delimited(P) && Delimited(Q) && P != Q
    requires MatchAt(Q, s, i)
    ensures NoMatchBetween(P, s, i, i + |Q|)
  {
    forall p | i <= p < i + |Q| ensures !MatchAt(P, s, p) {
      NoMatchInside(s, i, p, P, Q);
    }
  }

  /** A match of `Q` inside which no match of `P` starts is copied whole. */
  lemma CopiesToken(s: string, i: nat, P: string, Q: string, v: string)
    requires |P| > 0 && MatchAt(Q, s, i) && NoMatchBetween(P, s, i, i + |Q|)
    ensures ReplaceFrom(s, i, P, v) == Q + ReplaceFrom(s, i + |Q|, P, v)
  {
    var whole, rest := ReplaceFrom(s, i, P, v), ReplaceFrom(s, i + |Q|, P, v);
    CopyRun(s, i, i + |Q|, P, v);
    assert s[i..i + |Q|] == Q;
    assert whole == s[i..i + |Q|] + rest;
  }

  /** A match of `P` that starts before a match of `Q` ends before it. */
  lemma MatchEndsBefore(s: string, pos: nat, i: nat, P: string, Q: string)
    requires Delimited(P) && Delimited(Q)
    requires pos < i && MatchAt(P, s, pos) && MatchAt(Q, s, i)
    ensures pos + |P| <= i
  {
    assert s[i] == '{' by {
      assert s[i..i + |Q|][0] == s[i];
    }
    forall q | pos < q < pos + |P| ensures s[q] != '{' {
      assert s[q] == s[pos..pos + |P|][q - pos];
    }
  }

  /** The scan from `pos` keeps a token `Q` found at `i >= pos` when it
      replaces a different delimited token `P`. */
  lemma {:induction false} TokenSurvivesFrom(s: string, pos: nat, i: nat, P: string, Q: string, v: string)
    requires Delimited(P) && Delimited(Q) && P != Q
    requires pos <= i && MatchAt(Q, s, i)
    decreases |s| - pos
    ensures Occurs(Q, ReplaceFrom(s, pos, P, v))
  {
    if pos + |P| > |s| {
      ReplaceTail(s, pos, P, v);
      OccursInSuffix(Q, s, pos, i);
    } else if pos == i {
      NoMatchesInside(s, i, P, Q);
      CopiesToken(s, i, P, Q, v);
      OccursAtStart(Q, ReplaceFrom(s, i + |Q|, P, v));
    } else if MatchAt(P, s, pos) {
      MatchEndsBefore(s, pos, i, P, Q);
      TokenSurvivesFrom(s, pos + |P|, i, P, Q, v);
      SurvivesMatch(s, pos, P, Q, v);
    } else {
      TokenSurvivesFrom(s, pos + 1, i, P, Q, v);
      SurvivesCopy(s, pos, P, Q, v);
    }
  }

  lemma SurvivesMatch(s: string, pos: nat, P: string, Q: string, v: string)
    requires |P| > 0 && pos + |P| <= |s| && MatchAt(P, s, pos)
    requires Occurs(Q, ReplaceFrom(s, pos + |P|, P, v))
    ensures Occurs(Q, ReplaceFrom(s, pos, P, v))
  {
    ReplaceAtMatch(s, pos, P, v);
    OccursExtend(Q, v, ReplaceFrom(s, pos + |P|, P, v));
  }

  lemma SurvivesCopy(s: string, pos: nat, P: string, Q: string, v: string)
    requires |P| > 0 && pos + |P| <= |s| && !MatchAt(P, s, pos)
    requires Occurs(Q, ReplaceFrom(s, pos + 1, P, v))
    ensures Occurs(Q, ReplaceFrom(s, pos, P, v))
  {
    ReplaceElsewhere(s, pos, P, v);
    OccursExtend(Q, [s[pos]], ReplaceFrom(s, pos + 1, P, v));
  }

  lemma OccursInSuffix(pat: string, s: string, pos: nat, i: nat)
    requires pos <= i && MatchAt(pat, s, i)
    ensures Occurs(pat, s[pos..])
  {
    assert s[pos..][i - pos..i - pos + |pat|] == pat;
    assert MatchAt(pat, s[pos..], i - pos);
  }

  lemma OccursExtend(pat: string, pre: string, s: string)
    requires Occurs(pat, s)
    ensures Occurs(pat, pre + s)
  {
    var i :| 0 <= i <= |s| - |pat| && MatchAt(pat, s, i);
    assert (pre + s)[|pre| + i..|pre| + i + |pat|] == s[i..i + |pat|];
    assert MatchAt(pat, pre + s, |pre| + i);
  }

  /** Replacing one brace-free placeholder never destroys another. */
  lemma PlaceholderSurvives(s: string, j: string, k: string, v: string)
    requires BraceFree(j) && BraceFree(k) && j != k
    requires Occurs(Placeholder(k), s)
    ensures Occurs(Placeholder(k), ReplaceAll(s, Placeholder(j), v))
  {
    var P, Q := Placeholder(j), Placeholder(k);
    PlaceholderDelimited(j);
    PlaceholderDelimited(k);
    PlaceholderInjective(j, k);
    var i :| 0 <= i <= |s| - |Q| && MatchAt(Q, s, i);
    TokenSurvivesFrom(s, 0, i, P, Q, v);
  }

  // ---------------------------------------------------------------------
  // Substitution over the value entries
  // ---------------------------------------------------------------------

  /** The key that travels beside the prompt and is never substituted. */
  const PassThroughKey: string := "codingRuleName"

  /** `Object.entries(values)`: key and value pairs in iteration order. */
  type Entries = seq<(string, string)>

  /** One step of the fold. */
  function Step(text: string, entry: (string, string)): string {
    if entry.0 != PassThroughKey then ReplaceAll(text, Placeholder(entry.0), entry.1) else text
  }

  /** The resolved prompt: a left fold over the entries in order, each
      replacing every `{key}` with its value literally. When no substituted
      key has its placeholder in the text, the template comes back
      unchanged; in particular for no entries at all. */
  function Resolve(template: string, values: Entries): (r: string)
    decreases |values|
    ensures (forall i :: 0 <= i < |values| && values[i].0 != PassThroughKey ==> !Occurs(Placeholder(values[i].0), template))
            ==> r == template
  {
    if values == [] then template
    else
      var next := Step(template, values[0]);
      if values[0].0 != PassThroughKey && !Occurs(Placeholder(values[0].0), template) then
        ReplaceAllAbsent(template, Placeholder(values[0].0), values[0].1);
        Resolve(next, values[1..])
      else
        Resolve(next, values[1..])
  }

  /** Every occurrence of a key's placeholder is replaced, not only the
      first: a template made of brace-free pieces joined by `{key}` resolves
      to the pieces joined by the value. */
  lemma ResolveReplacesEvery(xs: seq<string>, key: string, val: string)
    requires key != PassThroughKey
    requires forall i :: 0 <= i < |xs| ==> '{' !in xs[i]
    ensures Resolve(Join(Placeholder(key), xs), [(key, val)]) == Join(val, xs)
  {
    ReplaceJoin(xs, Placeholder(key), val);
    assert [(key, val)][1..] == [];
  }

  /** A placeholder used twice is filled twice. */
  lemma ResolveTwiceExample()
    ensures Resolve("{a}-{a}", [("a", "x")]) == "x-x"
  {
    assert "a" != PassThroughKey by { assert |PassThroughKey| == 14; }
    ResolveTwice("a", "x");
    assert Placeholder("a") == "{a}";
    assert "{a}" + ("-" + "{a}") == "{a}-{a}";
  }

  lemma ResolveTwice(key: string, val: string)
    requires key != PassThroughKey
    ensures Resolve(Placeholder(key) + ("-" + Placeholder(key)), [(key, val)]) == val + ("-" + val)
  {
    var xs := ["", "-", ""];
    assert forall i :: 0 <= i < |xs| ==> '{' !in xs[i];
    ResolveReplacesEvery(xs, key, val);
    JoinThree(Placeholder(key), "", "-", "");
    JoinThree(val, "", "-", "");
  }

  /** The same fold with the bridge's `replaceAll`, which expands `$`
      patterns in the values; with no `$` in any value it is the literal
      fold. */
  function ResolveAsWritten(template: string, values: Entries): (r: string)
    decreases |values|
    ensures NoDollarValues(values) ==> r == Resolve(template, values)
  {
    if values == [] then template
    else
      var (key, val) := values[0];
      var next := if key != PassThroughKey then ReplaceAllAsWritten(template, Placeholder(key), val) else template;
      if key != PassThroughKey && '$' !in val then
        AsWrittenAgreesWithoutDollar(template, 0, Placeholder(key), val);
        ResolveAsWritten(next, values[1..])
      else
        ResolveAsWritten(next, values[1..])
  }

  predicate NoDollarValues(values: Entries) {
    forall i :: 0 <= i < |values| ==> '$' !in values[i].1
  }

  /** A value `$&` is not inserted as written: the bridge puts back the
      matched placeholder, so the numerology prompt `$&` resolves to
      `{prompt}` instead of `$&`. */
  lemma DollarValueCounterexample()
    ensures ResolveAsWritten(Template(NumerologyInterpretation), [("prompt", "$&")]) == "{prompt}"
    ensures Resolve(Template(NumerologyInterpretation), [("prompt", "$&")]) == "$&"
  {
    var s := "{prompt}";
    ReplaceWhole(s, "$&");
    ReplaceWholeAsWritten(s, "$&");
    assert Expand("$&", s, [], []) == s + Expand([], s, [], []);
    assert PassThroughKey != "prompt" by { assert |PassThroughKey| == 14; }
  }

  /** A text that is exactly the pattern is replaced whole. */
  lemma ReplaceWhole(s: string, rep: string)
    requires |s| > 0
    ensures ReplaceAll(s, s, rep) == rep
  {
    assert MatchAt(s, s, 0);
    assert ReplaceFrom(s, |s|, s, rep) == [];
    assert ReplaceFrom(s, 0, s, rep) == rep + ReplaceFrom(s, |s|, s, rep);
  }

  /** The same for the bridge's `replaceAll`, with the replacement expanded. */
  lemma ReplaceWholeAsWritten(s: string, rep: string)
    requires |s| > 0
    ensures ReplaceAllAsWritten(s, s, rep) == Expand(rep, s, [], [])
  {
    assert MatchAt(s, s, 0);
    assert s[..0] == [] && s[|s|..] == [];
    assert ReplaceFromAsWritten(s, |s|, s, rep) == [];
    assert ReplaceFromAsWritten(s, 0, s, rep) == Expand(rep, s, [], []) + ReplaceFromAsWritten(s, |s|, s, rep);
  }

  /** The entries with key `key` removed. */
  function WithoutKey(values: Entries, key: string): (r: Entries)
    ensures |r| <= |values|
    ensures forall i :: 0 <= i < |r| ==> r[i].0 != key && r[i] in values
  {
    if values == [] then []
    else (if values[0].0 != key then [values[0]] else []) + WithoutKey(values[1..], key)
  }

  /** The pass-through key is never substituted: dropping its entries does
      not change the resolved prompt. */
  lemma {:induction false} PassThroughNeverSubstituted(template: string, values: Entries)
    decreases |values|
    ensures Resolve(template, values) == Resolve(template, WithoutKey(values, PassThroughKey))
  {
    if values != [] {
      PassThroughNeverSubstituted(Step(template, values[0]), values[1..]);
      var rest := WithoutKey(values[1..], PassThroughKey);
      if values[0].0 != PassThroughKey {
        assert WithoutKey(values, PassThroughKey) == [values[0]] + rest;
        assert ([values[0]] + rest)[1..] == rest;
      } else {
        assert WithoutKey(values, PassThroughKey) == rest;
        assert Step(template, values[0]) == template;
        PassThroughNeverSubstituted(template, values[1..]);
      }
    }
  }

  /** The keys the fold substitutes. */
  predicate Substitutes(values: Entries, key: string) {
    exists i :: 0 <= i < |values| && values[i].0 == key && key != PassThroughKey
  }

  /** A placeholder whose key is not substituted (not supplied, or the
      pass-through key) stays in the resolved prompt, provided all keys are
      brace-free. */
  lemma {:induction false} UnsuppliedPlaceholderStays(template: string, values: Entries, k: string)
    requires BraceFree(k)
    requires forall i :: 0 <= i < |values| ==> BraceFree(values[i].0)
    requires !Substitutes(values, k)
    requires Occurs(Placeholder(k), template)
    decreases |values|
    ensures Occurs(Placeholder(k), Resolve(template, values))
  {
    if values != [] {
      var next := Step(template, values[0]);
      if values[0].0 != PassThroughKey {
        assert values[0].0 != k;
        PlaceholderSurvives(template, values[0].0, k, values[0].1);
      }
      assert !Substitutes(values[1..], k);
      UnsuppliedPlaceholderStays(next, values[1..], k);
    }
  }

  /** The fold is sequential: text inserted for an earlier key is rewritten
      by a later key. */
  lemma LaterKeyRewritesInsertedText()
    ensures Resolve("{a}", [("a", "{b}"), ("b", "x")]) == "x"
  {
    assert Placeholder("a") == "{a}" && Placeholder("b") == "{b}";
    assert MatchAt("{a}", "{a}", 0);
    assert ReplaceFrom("{a}", 0, "{a}", "{b}") == "{b}" + ReplaceFrom("{a}", 3, "{a}", "{b}");
    assert MatchAt("{b}", "{b}", 0);
    assert ReplaceFrom("{b}", 0, "{b}", "x") == "x" + ReplaceFrom("{b}", 3, "{b}", "x");
    assert [("a", "{b}"), ("b", "x")][1..] == [("b", "x")];
  }

  // ---------------------------------------------------------------------
  // send_message and chat
  // ---------------------------------------------------------------------

  /** The value of the first entry with `key`, or nothing. */
  function Lookup(values: Entries, key: string): (r: Option<string>)
    ensures r.None? <==> forall i :: 0 <= i < |values| ==> values[i].0 != key
    ensures r.Some? ==> exists i :: 0 <= i < |values| && values[i] == (key, r.value)
                                    && forall j :: 0 <= j < i ==> values[j].0 != key
  {
    if values == [] then None
    else if values[0].0 == key then Some(values[0].1)
    else
      var r := Lookup(values[1..], key);
      if r.Some? then
        var i :| 0 <= i < |values[1..]| && values[1..][i] == (key, r.value)
                 && forall j :: 0 <= j < i ==> values[1..][j].0 != key;
        assert values[i + 1] == (key, r.value);
        assert forall j :: 1 <= j < i + 1 ==> values[j] == values[1..][j - 1];
        r
      else r
  }

  /** The payload sent to the service. */
  datatype Message = Message(prompt: string, codingRuleName: Option<string>)

  /** The payload built from a template and the caller's entries. The
      pass-through value travels beside the prompt exactly when it is
      supplied, and it never affects the prompt. */
  function Send(template: string, values: Entries): (m: Message)
    ensures m.codingRuleName.Some? <==> exists i :: 0 <= i < |values| && values[i].0 == PassThroughKey
    ensures m.codingRuleName == Lookup(values, PassThroughKey)
    ensures m.prompt == Resolve(template, WithoutKey(values, PassThroughKey))
  {
    PassThroughNeverSubstituted(template, values);
    Message(Resolve(template, values), Lookup(values, PassThroughKey))
  }

  /** `openai.send_message`. For plain entries the prompt is the catalog
      template with each hole filled by the first value of its key, every
      occurrence of it, and the holes without a value left as placeholders. */
  function SendMessage(name: PromptName, values: Entries): (m: Message)
    ensures PlainEntries(values) ==> m.prompt == Render(Fill(Segments(name), values))
    ensures m.codingRuleName == Lookup(values, PassThroughKey)
  {
    CatalogWellFormed(name);
    if PlainEntries(values) then
      ResolveFills(Segments(name), values);
      Send(Template(name), values)
    else
      Send(Template(name), values)
  }

  /** The payload as the bridge builds it, with `$` patterns in the values
      expanded. */
  function SendAsWritten(template: string, values: Entries): Message {
    Message(ResolveAsWritten(template, values), Lookup(values, PassThroughKey))
  }

  function SendMessageAsWritten(name: PromptName, values: Entries): Message {
    SendAsWritten(Template(name), values)
  }

  /** `openai.chat`: the prompt is forwarded as given, with no template. */
  function Chat(prompt: string): (m: Message)
    ensures m.prompt == prompt && m.codingRuleName.None?
  {
    Message(prompt, None)
  }

  /** The numerology template is the bare placeholder, so every prompt
      reaches the service unchanged, and nothing travels beside it. */
  lemma NumerologyPromptPassesThrough(p: string)
    ensures SendMessage(NumerologyInterpretation, [("prompt", p)]) == Message(p, None)
  {
    assert Placeholder("prompt") == "{prompt}";
    ReplaceWhole("{prompt}", p);
    assert PassThroughKey != "prompt" by { assert |PassThroughKey| == 14; }
    assert Step("{prompt}", ("prompt", p)) == p;
    assert [("prompt", p)][1..] == [];
    assert Resolve("{prompt}", [("prompt", p)]) == p;
    assert Lookup([("prompt", p)][1..], PassThroughKey) == None;
  }

  /** As the bridge is written, the numerology prompt reaches the service
      with its `$` patterns expanded against the placeholder; a prompt
      without `$` reaches it unchanged. */
  lemma NumerologyPromptAsWritten(p: string)
    ensures SendMessageAsWritten(NumerologyInterpretation, [("prompt", p)]) == Message(Expand(p, "{prompt}", [], []), None)
    ensures '$' !in p ==> SendMessageAsWritten(NumerologyInterpretation, [("prompt", p)]) == Message(p, None)
  {
    assert Placeholder("prompt") == "{prompt}";
    ReplaceWholeAsWritten("{prompt}", p);
    assert PassThroughKey != "prompt" by { assert |PassThroughKey| == 14; }
    assert [("prompt", p)][1..] == [];
    assert ResolveAsWritten("{prompt}", [("prompt", p)]) == Expand(p, "{prompt}", [], []);
    assert Lookup([("prompt", p)][1..], PassThroughKey) == None;
    if '$' !in p {
      ExpandWithoutDollar(p, "{prompt}", [], []);
    }
  }

  // ---------------------------------------------------------------------
  // Filling a template
  // ---------------------------------------------------------------------

  /** Literal text without an opening brace and holes with brace-free keys:
      the only placeholders in the rendered text are the holes. */
  predicate WellFormed(segs: seq<Segment>) {
    forall i :: 0 <= i < |segs| ==> WellFormedSegment(segs[i])
  }

  predicate WellFormedSegment(seg: Segment) {
    match seg
    case Lit(t) => '{' !in t
    case Hole(k) => BraceFree(k)
  }

  /** The intended meaning of the substitution: every hole whose key has a
      value (the pass-through key never does) becomes the first value given
      for that key; the other holes stay. */
  function FillSegment(seg: Segment, values: Entries): (r: Segment)
    ensures seg.Lit? ==> r == seg
    ensures seg.Hole? && (seg.key == PassThroughKey || Lookup(values, seg.key).None?) ==> r == seg
    ensures seg.Hole? && seg.key != PassThroughKey && Lookup(values, seg.key).Some? ==> r == Lit(Lookup(values, seg.key).value)
  {
    match seg
    case Lit(_) => seg
    case Hole(k) =>
      if k != PassThroughKey && Lookup(values, k).Some? then Lit(Lookup(values, k).value) else seg
  }

  function Fill(segs: seq<Segment>, values: Entries): (r: seq<Segment>)
    ensures |r| == |segs|
    ensures forall i :: 0 <= i < |segs| ==> r[i] == FillSegment(segs[i], values)
  {
    seq(|segs|, i requires 0 <= i < |segs| => FillSegment(segs[i], values))
  }

  /** Every hole with key `k` becomes the literal `v`. */
  function FillKey(segs: seq<Segment>, k: string, v: string): (r: seq<Segment>)
    ensures |r| == |segs|
    ensures forall i :: 0 <= i < |segs| ==> r[i] == (if segs[i] == Hole(k) then Lit(v) else segs[i])
  {
    seq(|segs|, i requires 0 <= i < |segs| => if segs[i] == Hole(k) then Lit(v) else segs[i])
  }

  /** Literal text without the pattern's first character is copied and the
      scan resumes after it. */
  lemma ReplaceLitFront(t: string, rest: string, pat: string, rep: string)
    requires |pat| > 0 && pat[0] !in t
    ensures ReplaceAll(t + rest, pat, rep) == t + ReplaceAll(rest, pat, rep)
  {
    var s := t + rest;
    forall p | 0 <= p < |t| ensures !MatchAt(pat, s, p) {
      assert s[p] == t[p];
      FirstCharMismatch(pat, s, p);
    }
    CopyRun(s, 0, |t|, pat, rep);
    assert s[0..|t|] == t;
    ReplaceShift(t, rest, 0, pat, rep);
  }

  /** The placeholder of a different brace-free key does not match at a
      placeholder. */
  lemma OtherPlaceholderNoMatch(h: string, k: string, rest: string)
    requires BraceFree(h) && BraceFree(k) && h != k
    ensures !MatchAt(Placeholder(k), Placeholder(h) + rest, 0)
  {
    var s, ph, pk := Placeholder(h) + rest, Placeholder(h), Placeholder(k);
    if |pk| <= |s| {
      var w := s[0..|pk|];
      if |k| < |h| {
        assert w[|k| + 1] == ph[|k| + 1] == h[|k|];
        assert h[|k|] in h;
        assert w[|k| + 1] != pk[|k| + 1];
      } else if |k| > |h| {
        assert w[|h| + 1] == ph[|h| + 1] == '}';
        assert pk[|h| + 1] == k[|h|];
        assert k[|h|] in k;
        assert w[|h| + 1] != pk[|h| + 1];
      } else {
        var j :| 0 <= j < |h| && h[j] != k[j];
        assert w[j + 1] == ph[j + 1] == h[j];
        assert pk[j + 1] == k[j];
      }
    }
  }

  /** The placeholder of a different key is copied and the scan resumes
      after it. */
  lemma ReplaceOtherHoleFront(h: string, k: string, rest: string, v: string)
    requires BraceFree(h) && BraceFree(k) && h != k
    ensures ReplaceAll(Placeholder(h) + rest, Placeholder(k), v) == Placeholder(h) + ReplaceAll(rest, Placeholder(k), v)
  {
    var s, ph, pk := Placeholder(h) + rest, Placeholder(h), Placeholder(k);
    OtherPlaceholderNoMatch(h, k, rest);
    forall p | 0 < p < |ph| ensures !MatchAt(pk, s, p) {
      assert s[p] == ph[p];
      if p < |ph| - 1 {
        assert ph[p] == h[p - 1];
        assert h[p - 1] in h;
      }
      FirstCharMismatch(pk, s, p);
    }
    CopyRun(s, 0, |ph|, pk, v);
    assert s[0..|ph|] == ph;
    ReplaceShift(ph, rest, 0, pk, v);
  }

  /** One step of the fold on a well-formed template fills exactly the holes
      of that key. */
  lemma {:induction false} ReplaceFillsKey(segs: seq<Segment>, k: string, v: string)
    requires WellFormed(segs) && BraceFree(k)
    ensures ReplaceAll(Render(segs), Placeholder(k), v) == Render(FillKey(segs, k, v))
  {
    var pk := Placeholder(k);
    if segs == [] {
      ReplaceTail("", 0, pk, v);
    } else {
      var rest := segs[1..];
      assert WellFormed(rest) by {
        forall i | 0 <= i < |rest| ensures rest[i] == segs[i + 1] {}
      }
      ReplaceFillsKey(rest, k, v);
      var filled := FillKey(segs, k, v);
      assert filled[1..] == FillKey(rest, k, v);
      assert WellFormedSegment(segs[0]);
      ReplaceSegmentFront(segs[0], Render(rest), k, v);
    }
  }

  /** A segment in front of the rest of a template: a hole of the key is
      filled, anything else is copied, and the scan goes on over the rest. */
  lemma ReplaceSegmentFront(seg: Segment, rest: string, k: string, v: string)
    requires WellFormedSegment(seg) && BraceFree(k)
    ensures ReplaceAll(SegmentText(seg) + rest, Placeholder(k), v)
         == SegmentText(if seg == Hole(k) then Lit(v) else seg) + ReplaceAll(rest, Placeholder(k), v)
  {
    var pk := Placeholder(k);
    match seg
    case Lit(t) =>
      ReplaceLitFront(t, rest, pk, v);
    case Hole(h) =>
      if h == k {
        ReplaceOccurrence([], pk, rest, v);
        assert [] + pk + rest == pk + rest;
      } else {
        ReplaceOtherHoleFront(h, k, rest, v);
      }
  }

  /** Entries whose keys are brace-free and whose values hold no opening
      brace: no value can form a placeholder that a later entry rewrites. */
  predicate PlainEntries(values: Entries) {
    forall i :: 0 <= i < |values| ==> BraceFree(values[i].0) && '{' !in values[i].1
  }

  /** The fold of literal replacements fills a well-formed template exactly as
      the reference says: each hole gets the first value for its key, in
      every place it occurs. */
  lemma {:induction false} ResolveFills(segs: seq<Segment>, values: Entries)
    requires WellFormed(segs) && PlainEntries(values)
    decreases |values|
    ensures Resolve(Render(segs), values) == Render(Fill(segs, values))
  {
    if values == [] {
      assert Fill(segs, values) == segs;
    } else {
      var (k, v) := values[0];
      var tail := values[1..];
      assert PlainEntries(tail) by {
        forall i | 0 <= i < |tail| ensures tail[i] == values[i + 1] {}
      }
      if k != PassThroughKey {
        ReplaceFillsKey(segs, k, v);
        var next := FillKey(segs, k, v);
        assert WellFormed(next);
        ResolveFills(next, tail);
        FillFirstKey(segs, values);
        assert Step(Render(segs), values[0]) == Render(next);
      } else {
        ResolveFills(segs, tail);
        FillSkipsPassThrough(segs, values);
        assert Step(Render(segs), values[0]) == Render(segs);
      }
    }
  }

  /** Filling the first key's holes and then the rest is filling them all. */
  lemma FillFirstKey(segs: seq<Segment>, values: Entries)
    requires values != [] && values[0].0 != PassThroughKey
    ensures Fill(FillKey(segs, values[0].0, values[0].1), values[1..]) == Fill(segs, values)
  {
    var (k, v) := values[0];
    var next, tail := FillKey(segs, k, v), values[1..];
    forall i | 0 <= i < |segs| ensures FillSegment(next[i], tail) == FillSegment(segs[i], values) {
      if segs[i].Hole? && segs[i].key != k {
        assert Lookup(values, segs[i].key) == Lookup(tail, segs[i].key);
      }
    }
  }

  /** An entry for the pass-through key fills nothing. */
  lemma FillSkipsPassThrough(segs: seq<Segment>, values: Entries)
    requires values != [] && values[0].0 == PassThroughKey
    ensures Fill(segs, values[1..]) == Fill(segs, values)
  {
    var tail := values[1..];
    forall i | 0 <= i < |segs| ensures FillSegment(segs[i], tail) == FillSegment(segs[i], values) {
      if segs[i].Hole? && segs[i].key != PassThroughKey {
        assert Lookup(values, segs[i].key) == Lookup(tail, segs[i].key);
      }
    }
  }

  /** Every template of the catalog is well formed. */
  lemma CatalogWellFormed(n: PromptName)
    ensures WellFormed(Segments(n))
  {
    ProseOpensNoPlaceholder();
    KeysBraceFree();
    match n
    case CheckViolations =>
      AlternatingWellFormed(CheckViolationsText1, CheckViolationsText2, CheckViolationsText3, CheckViolationsText4,
                            "coding_rules", "diff_content", "language");
    case GenerateCommit =>
      AlternatingWellFormed(GenerateCommitText1, GenerateCommitText2, GenerateCommitText3, GenerateCommitText4,
                            "diff_content", "deletedFiles", "language");
    case NumerologyInterpretation =>
  }

  lemma KeysBraceFree()
    ensures BraceFree("coding_rules") && BraceFree("diff_content") && BraceFree("language")
    ensures BraceFree("deletedFiles") && BraceFree("prompt")
  {
  }

  lemma AlternatingWellFormed(t1: string, t2: string, t3: string, t4: string, k1: string, k2: string, k3: string)
    requires '{' !in t1 && '{' !in t2 && '{' !in t3 && '{' !in t4
    requires BraceFree(k1) && BraceFree(k2) && BraceFree(k3)
    ensures WellFormed([Lit(t1), Hole(k1), Lit(t2), Hole(k2), Lit(t3), Hole(k3), Lit(t4)])
  {
  }
}
