/** The tab check of utils/check-style-clang-format.py: `check_tabs_file`.

    A line with a guard, whatever white space is around it, switches the check off or on again.
    Guards are checked themselves, wherever they stand.

    Expanding tabs may turn a line into a guard, but never takes a guard away; that is why a fixed
    file needs no second fix.
 */
module TabCheck {

  const TAB_SIZE := 4
  const GUARD_ON := "// clang-format on"
  const GUARD_OFF := "// clang-format off"

  /** What `str.strip` takes away. */
  predicate IsSpace(c: char) {
    || '\t' <= c <= '\r' || '\U{1c}' <= c <= ' ' || c == '\U{85}' || c == '\U{a0}' || c == '\U{1680}'
    || '\U{2000}' <= c <= '\U{200a}' || c == '\U{2028}' || c == '\U{2029}' || c == '\U{202f}' || c == '\U{205f}'
    || c == '\U{3000}'
  }

  function StripLeft(s: string): string {
    if s != "" && IsSpace(s[0]) then StripLeft(s[1..]) else s
  }

  function StripRight(s: string): string {
    if s != "" && IsSpace(s[|s| - 1]) then StripRight(s[..|s| - 1]) else s
  }

  function Strip(s: string): string { StripRight(StripLeft(s)) }

  predicate IsGuard(line: string) { Strip(line) == GUARD_ON || Strip(line) == GUARD_OFF }

  /** The column after a character that starts at `column`. */
  function Advance(c: char, column: nat): nat {
    if c == '\t' then column + (TAB_SIZE - column % TAB_SIZE)
    else if c == '\n' || c == '\r' then 0
    else column + 1
  }

  function Spaces(n: nat): string { if n == 0 then "" else Spaces(n - 1) + " " }

  /** `expandtabs`, starting at a column. */
  function ExpandFrom(s: string, column: nat): string {
    if s == "" then ""
    else
      (if s[0] == '\t' then Spaces(TAB_SIZE - column % TAB_SIZE) else [s[0]])
      + ExpandFrom(s[1..], Advance(s[0], column))
  }

  function ExpandTabs(line: string): string { ExpandFrom(line, 0) }

  /** The display column after a text that starts at `column`. */
  function Column(s: string, column: nat): nat {
    if s == "" then column else Column(s[1..], Advance(s[0], column))
  }

  // The guard state machine.

  /** Whether formatting is enabled once the first `n` lines have been seen. */
  function Enabled(lines: seq<string>, n: nat): bool
    requires n <= |lines|
  {
    if n == 0 then true
    else if Strip(lines[n - 1]) == GUARD_ON then true
    else if Strip(lines[n - 1]) == GUARD_OFF then false
    else Enabled(lines, n - 1)
  }

  /** Guard lines are always checked, other lines where formatting is enabled. */
  predicate Checked(lines: seq<string>, i: nat)
    requires i < |lines|
  {
    Enabled(lines, i + 1) || IsGuard(lines[i])
  }

  predicate HasTab(line: string) { '\t' in line }

  ghost predicate Compliant(lines: seq<string>) {
    forall i :: 0 <= i < |lines| && Checked(lines, i) ==> !HasTab(lines[i])
  }

  function FixedLine(lines: seq<string>, i: nat): string
    requires i < |lines|
  {
    if Checked(lines, i) && HasTab(lines[i]) then ExpandTabs(lines[i]) else lines[i]
  }

  function Fixed(lines: seq<string>): (r: seq<string>)
    ensures |r| == |lines|
  {
    seq(|lines|, i requires 0 <= i < |lines| => FixedLine(lines, i))
  }

  class TextFile {
    var lines: seq<string>

    method CheckTabs(fix: bool, verbose: bool) returns (compliant: bool)
      modifies this
      ensures compliant <==> Compliant(old(lines))
      ensures compliant <==> forall i :: 0 <= i < |old(lines)| && MustBeClean(old(lines), i) ==> !HasTab(old(lines)[i])
      ensures lines == if fix then Fixed(old(lines)) else old(lines)
    {
      hide Strip, ExpandTabs, MustBeClean;
      forall i | 0 <= i < |lines| ensures Checked(lines, i) <==> MustBeClean(lines, i) {
        CheckedExactly(lines, i);
      }
      compliant := true;
      var enabled := true;
      var fileLines := lines;
      for i := 0 to |lines|
        invariant lines == old(lines) && |fileLines| == |lines|
        invariant enabled == Enabled(lines, i)
        invariant compliant <==> forall k :: 0 <= k < i && Checked(lines, k) ==> !HasTab(lines[k])
        invariant forall k :: 0 <= k < i ==> fileLines[k] == FixedLine(lines, k)
        invariant forall k :: i <= k < |lines| ==> fileLines[k] == lines[k]
        invariant compliant ==> fileLines == lines
      {
        var line := lines[i];
        var stripped := Strip(line);
        if stripped == GUARD_ON {
          enabled := true;
        } else if stripped == GUARD_OFF {
          enabled := false;
        }
        if !enabled && stripped != GUARD_ON && stripped != GUARD_OFF {
          continue;
        }
        if !HasTab(line) {
          continue;
        }
        compliant := false;
        fileLines := fileLines[i := ExpandTabs(line)];
        if !fix && !verbose {
          assert Checked(lines, i);
          return;
        }
      }
      if fix && !compliant {
        lines := fileLines;
      }
      assert fileLines == Fixed(old(lines));
    }
  }

  // Expansion.

  lemma {:induction false} SpacesAreSpaces(n: nat)
    ensures |Spaces(n)| == n && forall i :: 0 <= i < n ==> Spaces(n)[i] == ' '
  {
    if n > 0 {
      SpacesAreSpaces(n - 1);
    }
  }

  lemma {:induction false} ExpandSplits(a: string, b: string, column: nat)
    ensures ExpandFrom(a + b, column) == ExpandFrom(a, column) + ExpandFrom(b, Column(a, column))
    ensures Column(a + b, column) == Column(b, Column(a, column))
  {
    if a == "" {
      assert a + b == b;
    } else {
      assert (a + b)[1..] == a[1..] + b;
      ExpandSplits(a[1..], b, Advance(a[0], column));
    }
  }

  lemma {:induction false} NoTabsLeft(s: string, column: nat)
    ensures !HasTab(ExpandFrom(s, column))
  {
    if s != "" {
      SpacesAreSpaces(TAB_SIZE - column % TAB_SIZE);
      NoTabsLeft(s[1..], Advance(s[0], column));
    }
  }

  lemma {:induction false} WithoutTabsUnchanged(s: string, column: nat)
    requires !HasTab(s)
    ensures ExpandFrom(s, column) == s
  {
    if s != "" {
      assert forall c :: c in s[1..] ==> c in s;
      WithoutTabsUnchanged(s[1..], Advance(s[0], column));
    }
  }

  lemma {:induction false} SpacesAdvance(n: nat, column: nat)
    ensures Column(Spaces(n), column) == column + n
  {
    if n > 0 {
      SpacesAdvance(n - 1, column);
      ExpandSplits(Spaces(n - 1), " ", column);
      assert Column(" ", column + (n - 1)) == Column("", column + n);
    }
  }

  /** Expanding a text leaves the column after it. */
  lemma {:induction false} ExpansionKeepsColumn(s: string, column: nat)
    ensures Column(ExpandFrom(s, column), column) == Column(s, column)
  {
    if s != "" {
      var piece := if s[0] == '\t' then Spaces(TAB_SIZE - column % TAB_SIZE) else [s[0]];
      ExpansionKeepsColumn(s[1..], Advance(s[0], column));
      ExpandSplits(piece, ExpandFrom(s[1..], Advance(s[0], column)), column);
      SpacesAdvance(TAB_SIZE - column % TAB_SIZE, column);
      if s[0] != '\t' {
        assert Column([s[0]], column) == Column("", Advance(s[0], column));
      }
    }
  }

  /** Every character that is not a tab is still there, at the same display column. */
  lemma CharactersKeepColumn(line: string, i: nat)
    requires i < |line| && line[i] != '\t'
    ensures var expanded, at := ExpandTabs(line), |ExpandTabs(line[..i])|;
            && at < |expanded| && expanded[at] == line[i]
            && Column(expanded[..at], 0) == Column(line[..i], 0)
  {
    assert line == line[..i] + line[i..];
    ExpandSplits(line[..i], line[i..], 0);
    ExpansionKeepsColumn(line[..i], 0);
    assert ExpandTabs(line)[..|ExpandTabs(line[..i])|] == ExpandTabs(line[..i]);
  }

  /** Nothing but blanks is added, and nothing but tabs and blanks disappears. */
  function Ink(s: string): string {
    if s == "" then "" else (if s[0] == '\t' || s[0] == ' ' then "" else [s[0]]) + Ink(s[1..])
  }

  lemma {:induction false} InkSplits(a: string, b: string)
    ensures Ink(a + b) == Ink(a) + Ink(b)
  {
    if a == "" {
      assert a + b == b;
    } else {
      assert (a + b)[1..] == a[1..] + b;
      InkSplits(a[1..], b);
    }
  }

  lemma {:induction false} SpacesHaveNoInk(n: nat)
    ensures Ink(Spaces(n)) == ""
  {
    if n > 0 {
      SpacesHaveNoInk(n - 1);
      InkSplits(Spaces(n - 1), " ");
    }
  }

  lemma {:induction false} ExpansionKeepsInk(s: string, column: nat)
    ensures Ink(ExpandFrom(s, column)) == Ink(s)
  {
    if s != "" {
      var rest := ExpandFrom(s[1..], Advance(s[0], column));
      ExpansionKeepsInk(s[1..], Advance(s[0], column));
      SpacesHaveNoInk(TAB_SIZE - column % TAB_SIZE);
      InkSplits(Spaces(TAB_SIZE - column % TAB_SIZE), rest);
      InkSplits([s[0]], rest);
      InkOfOne(s[0]);
      hide Spaces, Advance;
    }
  }

  lemma InkOfOne(c: char)
    ensures Ink([c]) == if c == '\t' || c == ' ' then "" else [c]
  {
    assert [c][1..] == "";
  }

  // Guards survive expansion.

  ghost predicate AllSpace(s: string) { forall i :: 0 <= i < |s| ==> IsSpace(s[i]) }

  ghost predicate Solid(s: string) { s != "" && !IsSpace(s[0]) && !IsSpace(s[|s| - 1]) }

  lemma Regroup(a: string, b: string, c: string)
    ensures (a + b) + c == a + (b + c)
  {
  }

  lemma HeadAndTail(s: string)
    requires s != ""
    ensures s == [s[0]] + s[1..] == s[..|s| - 1] + [s[|s| - 1]]
  {
  }

  lemma {:induction false} StripLeftSplits(s: string) returns (space: string)
    ensures s == space + StripLeft(s) && AllSpace(space)
  {
    if s != "" && IsSpace(s[0]) {
      var more := StripLeftSplits(s[1..]);
      space := [s[0]] + more;
      Regroup([s[0]], more, StripLeft(s[1..]));
      HeadAndTail(s);
      hide IsSpace;
    } else {
      space := "";
    }
  }

  lemma {:induction false} StripRightSplits(s: string) returns (space: string)
    ensures s == StripRight(s) + space && AllSpace(space)
  {
    if s != "" && IsSpace(s[|s| - 1]) {
      var more := StripRightSplits(s[..|s| - 1]);
      space := more + [s[|s| - 1]];
      Regroup(StripRight(s[..|s| - 1]), more, [s[|s| - 1]]);
      HeadAndTail(s);
      hide IsSpace;
    } else {
      space := "";
    }
  }

  lemma {:induction false} StripLeftOf(space: string, s: string)
    requires AllSpace(space) && s != "" && !IsSpace(s[0])
    ensures StripLeft(space + s) == s
  {
    if space == "" {
      assert space + s == s;
    } else {
      assert (space + s)[1..] == space[1..] + s;
      StripLeftOf(space[1..], s);
    }
  }

  lemma {:induction false} StripRightOf(s: string, space: string)
    requires AllSpace(space) && s != "" && !IsSpace(s[|s| - 1])
    ensures StripRight(s + space) == s
  {
    if space == "" {
      assert s + space == s;
    } else {
      assert (s + space)[..|s + space| - 1] == s + space[..|space| - 1];
      StripRightOf(s, space[..|space| - 1]);
    }
  }

  lemma StripOf(before: string, s: string, after: string)
    requires AllSpace(before) && AllSpace(after) && Solid(s)
    ensures Strip(before + s + after) == s
  {
    assert before + s + after == before + (s + after);
    StripLeftOf(before, s + after);
    StripRightOf(s, after);
  }

  /** White space in front and behind is taken away, and nothing else. */
  lemma StripExactly(s: string) returns (before: string, after: string)
    ensures s == before + Strip(s) + after && AllSpace(before) && AllSpace(after)
    ensures Strip(s) == "" || Solid(Strip(s))
  {
    before := StripLeftSplits(s);
    after := StripRightSplits(StripLeft(s));
    assert before + (Strip(s) + after) == before + Strip(s) + after;
    StripEnds(s);
    hide StripLeft, StripRight;
  }

  lemma StripEnds(s: string)
    ensures Strip(s) == "" || Solid(Strip(s))
  {
    LeftEnd(s);
    RightEnd(StripLeft(s));
    hide StripLeft, StripRight, IsSpace;
  }

  lemma {:induction false} LeftEnd(s: string)
    ensures StripLeft(s) == "" || !IsSpace(StripLeft(s)[0])
  {
    if s != "" && IsSpace(s[0]) {
      LeftEnd(s[1..]);
    }
  }

  lemma {:induction false} RightEnd(s: string)
    ensures var r := StripRight(s);
            r != "" ==> s != "" && !IsSpace(r[|r| - 1]) && r[0] == s[0]
  {
    if s != "" && IsSpace(s[|s| - 1]) {
      RightEnd(s[..|s| - 1]);
    }
  }

  lemma {:induction false} ExpandedSpaceIsSpace(s: string, column: nat)
    requires AllSpace(s)
    ensures AllSpace(ExpandFrom(s, column))
  {
    if s != "" {
      SpacesAreSpaces(TAB_SIZE - column % TAB_SIZE);
      ExpandedSpaceIsSpace(s[1..], Advance(s[0], column));
    }
  }

  /** A solid text without tabs, between white space, stays what it is. */
  lemma ExpansionKeepsStripped(line: string, solid: string)
    requires Strip(line) == solid && Solid(solid) && !HasTab(solid)
    ensures Strip(ExpandTabs(line)) == solid
  {
    var before := StripLeftSplits(line);
    var after := StripRightSplits(StripLeft(line));
    assert line == before + (solid + after);
    ExpandSplits(before, solid + after, 0);
    var c := Column(before, 0);
    ExpandSplits(solid, after, c);
    WithoutTabsUnchanged(solid, c);
    ExpandedSpaceIsSpace(before, 0);
    ExpandedSpaceIsSpace(after, Column(solid, c));
    var b, a := ExpandFrom(before, 0), ExpandFrom(after, Column(solid, c));
    assert ExpandTabs(line) == b + (solid + a) == b + solid + a;
    StripOf(b, solid, a);
  }

  /** Fixing never removes a guard. */
  lemma GuardsSurvive(line: string)
    ensures Strip(line) == GUARD_ON ==> Strip(ExpandTabs(line)) == GUARD_ON
    ensures Strip(line) == GUARD_OFF ==> Strip(ExpandTabs(line)) == GUARD_OFF
  {
    if Strip(line) == GUARD_ON {
      ExpansionKeepsStripped(line, GUARD_ON);
    }
    if Strip(line) == GUARD_OFF {
      ExpansionKeepsStripped(line, GUARD_OFF);
    }
  }

  /** But it may make one: here a comment becomes the line that switches formatting off. */
  lemma ExpansionMayMakeAGuard()
    ensures var line := "// clang-format\toff";
            !IsGuard(line) && Strip(ExpandTabs(line)) == GUARD_OFF
  {
    hide Strip, ExpandFrom;
    SolidStrips("// clang-format\toff");
    SolidStrips(GUARD_OFF);
    TabBecomesBlank();
  }

  lemma SolidStrips(s: string)
    requires Solid(s)
    ensures Strip(s) == s
  {
    StripOf("", s, "");
    assert "" + s + "" == s;
  }

  lemma TabBecomesBlank()
    ensures ExpandTabs("// clang-format\toff") == GUARD_OFF
  {
    hide ExpandFrom, ExpandTabs;
    TabInPlaceOfBlank("// clang-format", "off");
    assert "// clang-format" + ("\t" + "off") == "// clang-format\toff";
    assert "// clang-format" + (" " + "off") == GUARD_OFF;
  }

  /** A tab one column before a tab stop becomes a single blank. */
  lemma TabInPlaceOfBlank(head: string, tail: string)
    requires !HasTab(head) && !HasTab(tail) && '\n' !in head && '\r' !in head
    requires |head| % TAB_SIZE == TAB_SIZE - 1
    ensures ExpandTabs(head + ("\t" + tail)) == head + (" " + tail)
  {
    ExpandSplits(head, "\t" + tail, 0);
    WithoutTabsUnchanged(head, 0);
    PlainColumn(head, 0);
    ExpandTab(tail, |head|);
    WithoutTabsUnchanged(tail, |head| + 1);
    hide ExpandFrom, Column;
  }

  lemma ExpandTab(s: string, column: nat)
    requires column % TAB_SIZE == TAB_SIZE - 1
    ensures ExpandFrom("\t" + s, column) == " " + ExpandFrom(s, column + 1)
  {
    assert ("\t" + s)[1..] == s;
    assert Spaces(1) == Spaces(0) + " " == " ";
  }

  lemma {:induction false} PlainColumn(s: string, column: nat)
    requires forall i :: 0 <= i < |s| ==> s[i] != '\t' && s[i] != '\n' && s[i] != '\r'
    ensures Column(s, column) == column + |s|
  {
    if s != "" {
      PlainColumn(s[1..], column + 1);
    }
  }

  // What is checked, without the state machine.

  ghost predicate IsOn(line: string) { Strip(line) == GUARD_ON }

  ghost predicate IsOff(line: string) { Strip(line) == GUARD_OFF }

  /** Every off guard among the first `n` lines is followed by an on guard among them. */
  ghost predicate AllOn(lines: seq<string>, n: nat)
    requires n <= |lines|
  {
    forall j :: 0 <= j < n && IsOff(lines[j]) ==> exists k :: j < k < n && IsOn(lines[k])
  }

  lemma {:induction false} EnabledExactly(lines: seq<string>, n: nat)
    requires n <= |lines|
    ensures Enabled(lines, n) <==> AllOn(lines, n)
  {
    hide Strip;
    if n > 0 {
      EnabledExactly(lines, n - 1);
      if AllOn(lines, n) && !IsOn(lines[n - 1]) {
        assert AllOn(lines, n - 1);
      }
    }
  }

  ghost predicate MustBeClean(lines: seq<string>, i: nat)
    requires i < |lines|
  {
    IsOn(lines[i]) || IsOff(lines[i]) || AllOn(lines, i)
  }

  /** A line is checked exactly if it is a guard, or every off guard before it is followed by an on guard before it. */
  lemma CheckedExactly(lines: seq<string>, i: nat)
    requires i < |lines|
    ensures Checked(lines, i) <==> MustBeClean(lines, i)
  {
    EnabledExactly(lines, i);
    hide Strip, AllOn;
  }

  /** In a file without guards every line is: it passes exactly if it has no tab, and a fix expands all of it. */
  lemma UnguardedFile(lines: seq<string>)
    requires forall i :: 0 <= i < |lines| ==> !IsOn(lines[i]) && !IsOff(lines[i])
    ensures Compliant(lines) <==> forall i :: 0 <= i < |lines| ==> !HasTab(lines[i])
    ensures forall i :: 0 <= i < |lines| ==> Fixed(lines)[i] == ExpandTabs(lines[i])
  {
    hide IsOn, IsOff, ExpandFrom, Checked;
    forall i | 0 <= i < |lines| ensures Checked(lines, i) && FixedLine(lines, i) == ExpandTabs(lines[i]) {
      CheckedExactly(lines, i);
      if !HasTab(lines[i]) {
        WithoutTabsUnchanged(lines[i], 0);
      }
    }
  }

  /** A tab in front is four blanks; between the guards it stays. */
  lemma TabsBetweenGuards()
    ensures ExpandTabs("\tx") == "    x"
    ensures var lines := ["\tx", "// clang-format off", "\tx", "// clang-format on", "\tx"];
            Fixed(lines) == ["    x", "// clang-format off", "\tx", "// clang-format on", "    x"]
  {
    OneTab();
    SolidStrips("// clang-format off");
    SolidStrips("// clang-format on");
    StripsToX();
    GuardsDiffer();
    hide *;
    BetweenGuards("\tx", "// clang-format off", "// clang-format on");
  }

  lemma GuardsDiffer()
    ensures GUARD_ON == "// clang-format on" && GUARD_OFF == "// clang-format off" && GUARD_ON != GUARD_OFF
    ensures !HasTab(GUARD_ON) && !HasTab(GUARD_OFF) && HasTab("\tx") && "x" != GUARD_ON && "x" != GUARD_OFF
  {
    assert |GUARD_ON| != |GUARD_OFF| && |GUARD_ON| > 1 && "\tx"[0] == '\t';
  }

  lemma BetweenGuards(line: string, off: string, on: string)
    requires Strip(off) == GUARD_OFF && Strip(on) == GUARD_ON && GUARD_ON != GUARD_OFF
    requires Strip(line) != GUARD_OFF && Strip(line) != GUARD_ON
    requires HasTab(line) && !HasTab(off) && !HasTab(on)
    ensures Fixed([line, off, line, on, line]) == [ExpandTabs(line), off, line, on, ExpandTabs(line)]
  {
    hide Strip, ExpandTabs, HasTab;
    var lines := [line, off, line, on, line];
    assert Enabled(lines, 0) && Enabled(lines, 1) && !Enabled(lines, 2) && !Enabled(lines, 3);
    assert Enabled(lines, 4) && Enabled(lines, 5);
    hide Enabled, Fixed;
    FixedFive(lines);
  }

  lemma FixedFive(lines: seq<string>)
    requires |lines| == 5
    ensures Fixed(lines)
            == [FixedLine(lines, 0), FixedLine(lines, 1), FixedLine(lines, 2), FixedLine(lines, 3), FixedLine(lines, 4)]
  {
    hide FixedLine;
  }

  lemma OneTab()
    ensures ExpandTabs("\tx") == "    x"
  {
    assert "\tx"[1..] == "x" && "x"[1..] == "";
    assert ExpandFrom("x", 4) == "x" + "";
    assert Spaces(1) == " " && Spaces(2) == "  " && Spaces(3) == "   " && Spaces(4) == "    ";
  }

  lemma StripsToX()
    ensures Strip("\tx") == "x"
  {
    assert "\tx"[1..] == "x";
  }

  // After a fix.

  /** New guards can only switch checking off: what is checked after a fix was checked before it. */
  lemma {:induction false} CheckedBefore(lines: seq<string>, n: nat)
    requires n <= |lines|
    ensures Enabled(Fixed(lines), n) ==> Enabled(lines, n)
  {
    hide Strip, ExpandTabs;
    if n > 0 {
      CheckedBefore(lines, n - 1);
      GuardsSurvive(lines[n - 1]);
    }
  }

  lemma FixedLineHasNoTab(lines: seq<string>, i: nat)
    requires i < |lines| && Checked(Fixed(lines), i)
    ensures !HasTab(Fixed(lines)[i])
  {
    CheckedBefore(lines, i + 1);
    NoTabsLeft(lines[i], 0);
    hide Strip, Enabled;
  }

  /** A fixed file passes the check, and fixing it again changes nothing. */
  lemma FixIsStable(lines: seq<string>)
    ensures Compliant(Fixed(lines)) && Fixed(Fixed(lines)) == Fixed(lines)
  {
    hide Checked;
    forall i | 0 <= i < |lines| && Checked(Fixed(lines), i) ensures !HasTab(Fixed(lines)[i]) {
      FixedLineHasNoTab(lines, i);
    }
  }

  /** A fix changes a file exactly if the check reports it. */
  lemma FixChangesExactly(lines: seq<string>)
    ensures Fixed(lines) == lines <==> Compliant(lines)
  {
    hide Checked;
    forall i | 0 <= i < |lines| ensures FixedLine(lines, i) == lines[i] <==> !(Checked(lines, i) && HasTab(lines[i])) {
      NoTabsLeft(lines[i], 0);
    }
    if Fixed(lines) == lines {
      forall i | 0 <= i < |lines| && Checked(lines, i) ensures !HasTab(lines[i]) {
        assert Fixed(lines)[i] == FixedLine(lines, i);
      }
    }
  }
}
