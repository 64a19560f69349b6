/** The main page: the name and birth-date form, the computed grid, and the
    interpretation dialog it opens for one cell or for the whole chart. */
module MainPage {
  import opened Wrappers
  import opened Text
  import opened Numerology
  import opened Interpretation

  /** Which dialog description is shown: the one for a cell or the general one. */
  datatype DialogKind = CellKind | GeneralKind

  /** The page's state: the form inputs, the last computation, the dialog
      props the page passes down, and the dialog's own state. */
  datatype Page = Page(
    fullName: string,
    birthDate: Option<Date>,
    data: Option<NumerologyData>,
    grid: seq<GridCell>,
    dialogOpen: bool,
    dialogTitle: string,
    dialogData: Option<DialogData>,
    dialogKind: DialogKind,
    view: DialogState)

  const Initial := Page("", None, None, [], false, "", None, CellKind, Idle)

  /** Nothing but the computation (data and grid) differs between the pages. */
  predicate SameExceptComputation(p: Page, q: Page) {
    p.(data := q.data, grid := q.grid) == q
  }

  /** Nothing but the dialog props differ between the pages. */
  predicate SameExceptDialogProps(p: Page, q: Page) {
    p.(dialogOpen := q.dialogOpen, dialogTitle := q.dialogTitle,
       dialogData := q.dialogData, dialogKind := q.dialogKind) == q
  }

  // ---------------------------------------------------------------------
  // Computing the chart
  // ---------------------------------------------------------------------

  /** The calculate button: a blank name, a missing date or a name of fewer
      than two parts leaves the page alone; otherwise the data and a fresh
      nine-cell grid replace the previous ones. */
  function CalculatePage(a: Alphabet, p: Page): (r: Page)
    ensures p.birthDate.None? || |NameParts(p.fullName)| < 2 ==> r == p
    ensures p.birthDate.Some? && |NameParts(p.fullName)| >= 2 ==>
      && r.data == Some(DataOf(a, NameParts(p.fullName), p.birthDate.value))
      && r.grid == BuildGrid(r.data.value)
      && |r.grid| == 9
    ensures SameExceptComputation(p, r)
  {
    match Calculate(a, p.fullName, p.birthDate)
    case None => p
    case Some(c) => p.(data := Some(c.data), grid := c.grid)
  }

  /** A blank name changes nothing, whatever the date. */
  lemma BlankNameChangesNothing(a: Alphabet, p: Page)
    requires Trim(p.fullName) == []
    ensures CalculatePage(a, p) == p
  {
    EmptyNameHasNoParts(p.fullName);
  }

  /** Calculating twice is calculating once: the inputs are untouched, so the
      second run recomputes the same chart. */
  lemma CalculateIdempotent(a: Alphabet, p: Page)
    ensures CalculatePage(a, CalculatePage(a, p)) == CalculatePage(a, p)
  {
    var r := CalculatePage(a, p);
    assert r.fullName == p.fullName && r.birthDate == p.birthDate;
  }

  /** The clear button: the inputs, the data and the grid are emptied; the
      dialog is left as it is. */
  function Reset(p: Page): (r: Page)
    ensures r.fullName == [] && r.birthDate.None? && r.data.None? && r.grid == []
    ensures r.(fullName := p.fullName, birthDate := p.birthDate, data := p.data, grid := p.grid) == p
  {
    p.(fullName := "", birthDate := None, data := None, grid := [])
  }

  /** After a reset, neither the calculate button nor the general
      interpretation button has any effect. */
  lemma ResetDisablesActions(a: Alphabet, p: Page)
    ensures CalculatePage(a, Reset(p)) == Reset(p)
    ensures OpenGeneral(Reset(p)) == Reset(p)
  {
    BlankNameChangesNothing(a, Reset(p));
  }

  // ---------------------------------------------------------------------
  // Opening the dialog
  // ---------------------------------------------------------------------

  const CellTitlePrefix: string := "Luận giải con số "
  const GeneralTitle: string := "Luận giải tổng quan thần số học"

  /** The dialog title for a cell. */
  function CellTitle(n: int): string {
    CellTitlePrefix + IntToString(n)
  }

  /** The title names the cell: its number reads back after the prefix. */
  lemma CellTitleNamesNumber(n: int)
    requires n >= 0
    ensures ReadNumberAt(CellTitle(n), |CellTitlePrefix|) == n
  {
    ReadBackLast(CellTitlePrefix, IntToString(n), n);
  }

  /** A click on a cell: an empty cell opens nothing; any other cell opens the
      dialog on that cell. The form and the chart are untouched. */
  function ClickCell(p: Page, c: GridCell): (r: Page)
    ensures |c.instances| == 0 ==> r == p
    ensures |c.instances| > 0 ==>
      r.dialogOpen && r.dialogKind == CellKind && r.dialogData == Some(CellData(c))
      && r.dialogTitle == CellTitle(c.number)
    ensures SameExceptDialogProps(p, r)
  {
    if |c.instances| == 0 then p
    else p.(dialogTitle := CellTitle(c.number), dialogData := Some(CellData(c)),
            dialogKind := CellKind, dialogOpen := true)
  }

  /** The general interpretation button: without a computation or a date
      nothing opens; otherwise the dialog opens on the current name, the date
      as `dd/MM/yyyy` and the current grid. */
  function OpenGeneral(p: Page): (r: Page)
    ensures p.data.None? || p.birthDate.None? ==> r == p
    ensures p.data.Some? && p.birthDate.Some? ==>
      r.dialogOpen && r.dialogKind == GeneralKind && r.dialogTitle == GeneralTitle
      && r.dialogData == Some(GeneralData(p.fullName, SlashedDate(p.birthDate.value), p.grid))
    ensures SameExceptDialogProps(p, r)
  {
    if p.data.None? || p.birthDate.None? then p
    else p.(dialogTitle := GeneralTitle,
            dialogData := Some(GeneralData(p.fullName, SlashedDate(p.birthDate.value), p.grid)),
            dialogKind := GeneralKind, dialogOpen := true)
  }

  /** The dialog opens exactly when the click lands on a non-empty cell, and
      the dialog's title names the cell. */
  lemma ClickOpensIffNonEmpty(p: Page, c: GridCell)
    requires !p.dialogOpen
    requires c.number >= 0
    ensures ClickCell(p, c).dialogOpen <==> |c.instances| > 0
    ensures |c.instances| > 0 ==> ReadNumberAt(ClickCell(p, c).dialogTitle, |CellTitlePrefix|) == c.number
  {
    if |c.instances| > 0 {
      CellTitleNamesNumber(c.number);
    }
  }

  /** The general dialog carries a date from which the chosen day, month and
      year read back. */
  lemma GeneralDialogCarriesDate(p: Page)
    requires p.data.Some? && p.birthDate.Some? && ValidDate(p.birthDate.value)
    ensures OpenGeneral(p).dialogData.Some? && OpenGeneral(p).dialogData.value.GeneralData?
    ensures var s, d := OpenGeneral(p).dialogData.value.birthDate, p.birthDate.value;
      |s| >= 10 && ReadNumberAt(s, 0) == d.day && ReadNumberAt(s, 3) == d.month && ReadNumberAt(s, 6) == d.year
  {
    SlashedDateRoundTrip(p.birthDate.value);
  }

  /** The dialog reports a change of its open state: the page records it and
      the dialog clears its interpretation when it closes. */
  function ChangeOpen(p: Page, newOpen: bool): (r: Page)
    ensures r.dialogOpen == newOpen
    ensures r.view.loading == p.view.loading
    ensures !newOpen ==> r.view.interpretation == []
    ensures newOpen ==> r.view == p.view
    ensures r.(dialogOpen := p.dialogOpen, view := p.view) == p
  {
    p.(dialogOpen := newOpen, view := OpenChange(p.view, newOpen))
  }

  /** Closing the dialog once nothing is outstanding brings the start button
      back, so the next cell opened starts from a clean dialog. */
  lemma CloseShowsStart(p: Page, c: GridCell)
    requires !p.view.loading
    requires |c.instances| > 0
    ensures ShowsStart(ChangeOpen(p, false).view)
    ensures var q := ClickCell(ChangeOpen(p, false), c);
      q.dialogOpen && ShowsStart(q.view) && q.dialogData == Some(CellData(c))
  {
  }
}
