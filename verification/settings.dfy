/** The settings dialog's display labels for themes, font families and button
    variants, and its dark-mode switch. */
module Settings {
  import opened Text

  // ---------------------------------------------------------------------
  // Labels
  // ---------------------------------------------------------------------

  const ThemePrefix: string := "theme-"

  /** The name starts with `theme-`. */
  predicate HasThemePrefix(name: string) {
    |name| >= 6 && name[..6] == ThemePrefix
  }

  /** `.replace(/^theme-/, '')`: the prefix goes only where it starts the name. */
  function StripThemePrefix(name: string): (r: string)
    ensures HasThemePrefix(name) ==> r == name[6..]
    ensures !HasThemePrefix(name) ==> r == name
  {
    if HasThemePrefix(name) then name[6..] else name
  }

  /** `.replace(/-/g, ' ')`. */
  function Dehyphen(s: string): (r: string)
    ensures |r| == |s|
    ensures '-' !in r
    ensures forall i :: 0 <= i < |s| ==> r[i] == (if s[i] == '-' then ' ' else s[i])
  {
    seq(|s|, i requires 0 <= i < |s| => if s[i] == '-' then ' ' else s[i])
  }

  /** `.replace(/^./, c => c.toUpperCase())`: `.` matches no line terminator,
      so a text starting with one is left as it is. */
  function UpperFirstMatch(s: string): (r: string)
    ensures |r| == |s|
    ensures s != [] ==> r[1..] == s[1..]
    ensures s != [] ==> r[0] == (if IsLineTerminator(s[0]) then s[0] else AsciiUpper(s[0]))
  {
    if s != [] && !IsLineTerminator(s[0]) then [AsciiUpper(s[0])] + s[1..] else s
  }

  /** `charAt(0).toUpperCase()`: the upper-cased first character, or nothing
      for an empty text. */
  function UpperHead(s: string): (r: string)
    ensures |r| == if s == [] then 0 else 1
    ensures s != [] ==> r[0] == AsciiUpper(s[0])
  {
    if s == [] then [] else [AsciiUpper(s[0])]
  }

  /** A theme's label: without its `theme-` prefix, every hyphen a space, the
      first character upper-cased. */
  function ThemeLabel(name: string): (r: string)
    ensures '-' !in r
    ensures |r| == if HasThemePrefix(name) then |name| - 6 else |name|
    ensures var k := if HasThemePrefix(name) then 6 else 0;
      forall i :: 0 < i < |r| ==> r[i] == (if name[k + i] == '-' then ' ' else name[k + i])
    ensures var k := if HasThemePrefix(name) then 6 else 0;
      r != [] ==>
        var c := if name[k] == '-' then ' ' else name[k];
        r[0] == (if IsLineTerminator(c) then c else AsciiUpper(c))
  {
    UpperFirstMatch(Dehyphen(StripThemePrefix(name)))
  }

  /** A font family's label: the first character upper-cased, every later
      hyphen a space (a leading hyphen stays). */
  function FontLabel(f: string): (r: string)
    ensures |r| == |f|
    ensures f != [] ==> r[0] == AsciiUpper(f[0])
    ensures forall i :: 0 < i < |f| ==> r[i] == (if f[i] == '-' then ' ' else f[i])
  {
    UpperHead(f) + Dehyphen(if f == [] then [] else f[1..])
  }

  /** A button variant's label: the first character upper-cased, the rest
      unchanged. */
  function ButtonLabel(v: string): (r: string)
    ensures |r| == |v|
    ensures v != [] ==> r[0] == AsciiUpper(v[0]) && r[1..] == v[1..]
  {
    UpperHead(v) + (if v == [] then [] else v[1..])
  }

  lemma AsciiUpperIdempotent(c: char)
    ensures AsciiUpper(AsciiUpper(c)) == AsciiUpper(c)
  {
  }

  /** A theme label is its own label: it has no prefix or hyphen left and
      its first character is already upper-cased. */
  lemma ThemeLabelIdempotent(name: string)
    ensures ThemeLabel(ThemeLabel(name)) == ThemeLabel(name)
  {
    var r := ThemeLabel(name);
    assert !HasThemePrefix(r) by {
      if |r| >= 6 {
        assert r[5] == r[..6][5];
      }
    }
    var r2 := ThemeLabel(r);
    if r != [] {
      AsciiUpperIdempotent(Dehyphen(StripThemePrefix(name))[0]);
    }
    assert r2 == r;
  }

  /** For a name without the prefix that starts with neither a hyphen nor a
      line terminator, the theme and font-family formatters agree. */
  lemma ThemeAndFontLabelsAgree(name: string)
    requires !HasThemePrefix(name)
    requires name != [] ==> name[0] != '-' && !IsLineTerminator(name[0])
    ensures ThemeLabel(name) == FontLabel(name)
  {
    var t, f := ThemeLabel(name), FontLabel(name);
    if name != [] {
      assert Dehyphen(name)[0] == name[0];
      assert t[0] == f[0];
    }
    assert |t| == |f|;
  }

  /** For a hyphen-free name, the font-family and button formatters agree. */
  lemma FontAndButtonLabelsAgree(name: string)
    requires '-' !in name
    ensures FontLabel(name) == ButtonLabel(name)
  {
    var f, b := FontLabel(name), ButtonLabel(name);
    forall i | 0 < i < |name| ensures f[i] == b[i] {
      assert b[i] == b[1..][i - 1];
    }
  }

  // ---------------------------------------------------------------------
  // Dark mode
  // ---------------------------------------------------------------------

  /** The classes of the document root, the stored theme mode and the switch. */
  datatype Appearance = Appearance(classes: set<string>, themeMode: string, isDarkMode: bool)

  /** `handleDarkModeToggle`: both mode classes are removed, the chosen one is
      added, and the switch and the stored mode follow. */
  function ToggleDark(st: Appearance, checked: bool): (r: Appearance)
    ensures ("dark" in r.classes) == checked && ("light" in r.classes) == !checked
    ensures r.themeMode == "dark" <==> checked
    ensures r.isDarkMode == checked
    ensures forall c :: c != "dark" && c != "light" ==> (c in r.classes <==> c in st.classes)
  {
    var cleared := st.classes - {"dark", "light"};
    if checked then Appearance(cleared + {"dark"}, "dark", true)
    else Appearance(cleared + {"light"}, "light", false)
  }

  /** Only the last toggle counts. */
  lemma ToggleLastWins(st: Appearance, a: bool, b: bool)
    ensures ToggleDark(ToggleDark(st, a), b) == ToggleDark(st, b)
  {
    var r1, r2 := ToggleDark(ToggleDark(st, a), b), ToggleDark(st, b);
    assert r1.classes == r2.classes;
  }

  /** Opening the dialog sets the switch from the stored mode. */
  function SyncOnOpen(st: Appearance): (r: Appearance)
    ensures r.isDarkMode <==> st.themeMode == "dark"
    ensures r.classes == st.classes && r.themeMode == st.themeMode
  {
    st.(isDarkMode := st.themeMode == "dark")
  }

  /** After a toggle, reopening the dialog shows the switch as it was left. */
  lemma ReopenKeepsToggle(st: Appearance, checked: bool)
    ensures SyncOnOpen(ToggleDark(st, checked)) == ToggleDark(st, checked)
  {
  }
}
