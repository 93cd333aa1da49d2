/**
  `_generate_finish_args`: the sandbox permissions of the manifest. IPC is
  always shared, each checked box adds its flag in a fixed order, the X11
  fallback socket is added when no display socket has been asked for, and
  the custom-permission lines follow, trimmed and without blank lines.
 */
module Permissions {
  import opened Text
  import opened Form

  /** The check boxes the builder looks at and the flag each one adds, in its order. */
  const PermissionFlags: seq<(string, string)> := [
    ("x11", "--socket=x11"), ("wayland", "--socket=wayland"), ("network", "--share=network"),
    ("home", "--filesystem=home"), ("dri", "--device=dri")]

  const IpcFlag := "--share=ipc"
  const FallbackFlag := "--socket=fallback-x11"

  /** The flags of `table` whose box is checked, in table order. */
  function Selected(perms: map<string, bool>, table: seq<(string, string)>): seq<string>
  {
    if table == [] then []
    else
      var last := table[|table| - 1];
      Selected(perms, table[..|table| - 1]) + (if Toggled(perms, last.0) then [last.1] else [])
  }

  /** The table positions of the checked boxes, in increasing order. */
  function SelectedPositions(perms: map<string, bool>, table: seq<(string, string)>): (idx: seq<nat>)
    ensures forall k :: 0 <= k < |idx| ==> idx[k] < |table| && Toggled(perms, table[idx[k]].0)
    ensures forall k, l :: 0 <= k < l < |idx| ==> idx[k] < idx[l]
    ensures forall i :: 0 <= i < |table| && Toggled(perms, table[i].0) ==> i in idx
  {
    if table == [] then []
    else
      var n := |table| - 1;
      var idx' := SelectedPositions(perms, table[..n]);
      idx' + (if Toggled(perms, table[n].0) then [n] else [])
  }

  /**
    The selected flags are exactly the flags of the checked boxes, taken in
    the order of the table: the k-th selected flag is the flag at the k-th
    checked position.
   */
  lemma {:induction false} SelectedInTableOrder(perms: map<string, bool>, table: seq<(string, string)>)
    ensures var idx := SelectedPositions(perms, table);
      |Selected(perms, table)| == |idx| &&
      forall k :: 0 <= k < |idx| ==> Selected(perms, table)[k] == table[idx[k]].1
  {
    if table != [] {
      SelectedInTableOrder(perms, table[..|table| - 1]);
    }
  }

  predicate DistinctFlags(table: seq<(string, string)>)
  {
    forall i, j :: 0 <= i < j < |table| ==> table[i].1 != table[j].1
  }

  /** A flag is selected exactly when some checked box of the table adds it. */
  lemma {:induction false} SelectedMembers(perms: map<string, bool>, table: seq<(string, string)>)
    ensures forall x :: x in Selected(perms, table) <==>
      exists i :: 0 <= i < |table| && table[i].1 == x && Toggled(perms, table[i].0)
  {
    if table != [] {
      var n := |table| - 1;
      SelectedMembers(perms, table[..n]);
      forall x | x in Selected(perms, table)
        ensures exists i :: 0 <= i < |table| && table[i].1 == x && Toggled(perms, table[i].0)
      {
        if x in Selected(perms, table[..n]) {
          var i :| 0 <= i < n && table[..n][i].1 == x && Toggled(perms, table[..n][i].0);
          assert table[i].1 == x && Toggled(perms, table[i].0);
        } else {
          assert table[n].1 == x && Toggled(perms, table[n].0);
        }
      }
      forall x, i | 0 <= i < |table| && table[i].1 == x && Toggled(perms, table[i].0)
        ensures x in Selected(perms, table)
      {
        if i < n {
          assert table[..n][i] == table[i];
        }
      }
    }
  }

  /** No flag is selected twice when the table's flags are distinct. */
  lemma {:induction false} SelectedDistinct(perms: map<string, bool>, table: seq<(string, string)>)
    requires DistinctFlags(table)
    ensures forall k, l :: 0 <= k < l < |Selected(perms, table)| ==> Selected(perms, table)[k] != Selected(perms, table)[l]
  {
    if table != [] {
      var n := |table| - 1;
      assert DistinctFlags(table[..n]);
      SelectedDistinct(perms, table[..n]);
      SelectedMembers(perms, table[..n]);
      assert forall i :: 0 <= i < n ==> table[..n][i].1 != table[n].1;
      var s, s' := Selected(perms, table), Selected(perms, table[..n]);
      if Toggled(perms, table[n].0) {
        assert table[n].1 !in s';
        assert s == s' + [table[n].1];
        forall k, l | 0 <= k < l < |s| ensures s[k] != s[l] {
          if l == |s'| {
            assert s[k] in s';
          } else {
            assert s[k] == s'[k] && s[l] == s'[l];
          }
        }
      }
    }
  }

  lemma PermissionFlagsDistinct()
    ensures DistinctFlags(PermissionFlags)
    ensures forall i :: 0 <= i < |PermissionFlags| ==> PermissionFlags[i].1 != IpcFlag && PermissionFlags[i].1 != FallbackFlag
    ensures IpcFlag != FallbackFlag
  {
    var t := PermissionFlags;
    assert t[0].1 == "--socket=x11" && t[1].1 == "--socket=wayland" && t[2].1 == "--share=network";
    assert t[3].1 == "--filesystem=home" && t[4].1 == "--device=dri";
  }

  /** An X11 or Wayland socket has been asked for. */
  predicate HasDisplay(perms: map<string, bool>)
  {
    Toggled(perms, "x11") || Toggled(perms, "wayland")
  }

  /** The built-in part of the flag list: IPC, the checked flags, then the fallback socket when no display is set. */
  function BuiltinArgs(perms: map<string, bool>): seq<string>
  {
    [IpcFlag] + Selected(perms, PermissionFlags) + (if HasDisplay(perms) then [] else [FallbackFlag])
  }

  /** `[l.strip() for l in lines if l.strip()]`. */
  function StrippedNonBlank(lines: seq<string>): (r: seq<string>)
    ensures |r| <= |lines|
    ensures forall k :: 0 <= k < |r| ==> r[k] != "" && Stripped(r[k])
  {
    if lines == [] then []
    else
      var rest := StrippedNonBlank(lines[1..]);
      if Strip(lines[0]) != "" then [Strip(lines[0])] + rest else rest
  }

  /** The custom-permission lines: one per line of the text, trimmed, blank ones dropped. */
  function CustomLines(custom: string): seq<string>
  {
    if custom != "" then StrippedNonBlank(Split(custom, '\n')) else []
  }

  /**
    The flag list `_generate_finish_args` returns for the boxes `perms` and
    the custom-permission text `custom`.
   */
  function FinishArgsOf(perms: map<string, bool>, custom: string): seq<string>
  {
    BuiltinArgs(perms) + CustomLines(custom)
  }

  /** The source's display test: a display name occurs in the space-joined flags. */
  predicate MentionsDisplay(args: seq<string>)
  {
    Contains(Join(args, " "), "x11") || Contains(Join(args, " "), "wayland")
  }

  /** Among the built-in flags only the X11 socket names "x11". */
  lemma MentionIsX11Flag(f: string)
    requires || f == IpcFlag || f == "--socket=x11" || f == "--socket=wayland"
             || f == "--share=network" || f == "--filesystem=home" || f == "--device=dri"
    ensures Contains(f, "x11") ==> f == "--socket=x11"
  {
    if f != "--socket=x11" {
      AbsentChar(f, "x11", 'x');
    }
  }

  /** Among the built-in flags only the Wayland socket names "wayland". */
  lemma MentionIsWaylandFlag(f: string)
    requires || f == IpcFlag || f == "--socket=x11" || f == "--socket=wayland"
             || f == "--share=network" || f == "--filesystem=home" || f == "--device=dri"
    ensures Contains(f, "wayland") ==> f == "--socket=wayland"
  {
    if f == "--share=network" {
      AbsentChar(f, "wayland", 'y');
    } else if f != "--socket=wayland" {
      AbsentChar(f, "wayland", 'w');
    }
  }

  lemma AbsentChar(f: string, sub: string, x: char)
    requires x in sub && x !in f
    ensures !Contains(f, sub)
  {
    if Contains(f, sub) {
      ContainsChar(f, sub, x);
    }
  }

  /** What the selection of the builder's own table can hold, and when it holds a display socket. */
  lemma SelectedFlagFacts(perms: map<string, bool>)
    ensures forall x :: x in Selected(perms, PermissionFlags) ==>
      || x == "--socket=x11" || x == "--socket=wayland" || x == "--share=network"
      || x == "--filesystem=home" || x == "--device=dri"
    ensures "--socket=x11" in Selected(perms, PermissionFlags) <==> Toggled(perms, "x11")
    ensures "--socket=wayland" in Selected(perms, PermissionFlags) <==> Toggled(perms, "wayland")
  {
    var t := PermissionFlags;
    var s := Selected(perms, t);
    SelectedMembers(perms, t);
    forall x | x in s
      ensures || x == "--socket=x11" || x == "--socket=wayland" || x == "--share=network"
              || x == "--filesystem=home" || x == "--device=dri"
    {
      var i :| 0 <= i < |t| && t[i].1 == x && Toggled(perms, t[i].0);
      assert i == 0 || i == 1 || i == 2 || i == 3 || i == 4;
    }
    if "--socket=x11" in s {
      var i :| 0 <= i < |t| && t[i].1 == "--socket=x11" && Toggled(perms, t[i].0);
      assert i == 0 || i == 1 || i == 2 || i == 3 || i == 4;
    }
    if "--socket=wayland" in s {
      var i :| 0 <= i < |t| && t[i].1 == "--socket=wayland" && Toggled(perms, t[i].0);
      assert i == 0 || i == 1 || i == 2 || i == 3 || i == 4;
    }
    assert t[0] == ("x11", "--socket=x11") && t[1] == ("wayland", "--socket=wayland");
  }

  /** Every flag before the fallback test is IPC or one of the table's flags. */
  lemma BuiltinPrefixFlag(perms: map<string, bool>, k: nat)
    requires k < 1 + |Selected(perms, PermissionFlags)|
    ensures var f := ([IpcFlag] + Selected(perms, PermissionFlags))[k];
      || f == IpcFlag || f == "--socket=x11" || f == "--socket=wayland"
      || f == "--share=network" || f == "--filesystem=home" || f == "--device=dri"
  {
    if k > 0 {
      var s := Selected(perms, PermissionFlags);
      SelectedFlagFacts(perms);
      assert s[k - 1] in s;
    }
  }

  /** A mention of "x11" in the joined flags comes from the checked X11 box. */
  lemma X11MentionIsChecked(perms: map<string, bool>)
    ensures Contains(Join([IpcFlag] + Selected(perms, PermissionFlags), " "), "x11") ==> Toggled(perms, "x11")
  {
    var args := [IpcFlag] + Selected(perms, PermissionFlags);
    if Contains(Join(args, " "), "x11") {
      ContainsInJoined(args, ' ', "x11");
      var k :| 0 <= k < |args| && Contains(args[k], "x11");
      BuiltinPrefixFlag(perms, k);
      MentionIsX11Flag(args[k]);
      SelectedFlagFacts(perms);
      assert args[k] in Selected(perms, PermissionFlags);
    }
  }

  /** A mention of "wayland" in the joined flags comes from the checked Wayland box. */
  lemma WaylandMentionIsChecked(perms: map<string, bool>)
    ensures Contains(Join([IpcFlag] + Selected(perms, PermissionFlags), " "), "wayland") ==> Toggled(perms, "wayland")
  {
    var args := [IpcFlag] + Selected(perms, PermissionFlags);
    if Contains(Join(args, " "), "wayland") {
      ContainsInJoined(args, ' ', "wayland");
      var k :| 0 <= k < |args| && Contains(args[k], "wayland");
      BuiltinPrefixFlag(perms, k);
      MentionIsWaylandFlag(args[k]);
      SelectedFlagFacts(perms);
      assert args[k] in Selected(perms, PermissionFlags);
    }
  }

  /** A mention of "x11" or "wayland" in the joined flags comes from a checked display box. */
  lemma MentionImpliesDisplay(perms: map<string, bool>)
    ensures MentionsDisplay([IpcFlag] + Selected(perms, PermissionFlags)) ==> HasDisplay(perms)
  {
    X11MentionIsChecked(perms);
    WaylandMentionIsChecked(perms);
  }

  /** A checked display box puts its name into the joined flags. */
  lemma DisplayImpliesMention(perms: map<string, bool>)
    ensures HasDisplay(perms) ==> MentionsDisplay([IpcFlag] + Selected(perms, PermissionFlags))
  {
    var s := Selected(perms, PermissionFlags);
    var args := [IpcFlag] + s;
    SelectedFlagFacts(perms);
    if Toggled(perms, "x11") {
      var k :| 0 <= k < |s| && s[k] == "--socket=x11";
      assert args[k + 1] == "--socket=x11";
      ContainsAt(args[k + 1], "x11", 9);
      JoinedContains(args, " ", k + 1, "x11");
    } else if Toggled(perms, "wayland") {
      var k :| 0 <= k < |s| && s[k] == "--socket=wayland";
      assert args[k + 1] == "--socket=wayland";
      ContainsAt(args[k + 1], "wayland", 9);
      JoinedContains(args, " ", k + 1, "wayland");
    }
  }

  /**
    The text search the source performs on the joined flags is the same
    as asking whether the X11 or the Wayland box is checked.
   */
  lemma DisplayMentionIff(perms: map<string, bool>)
    ensures MentionsDisplay([IpcFlag] + Selected(perms, PermissionFlags)) <==> HasDisplay(perms)
  {
    MentionImpliesDisplay(perms);
    DisplayImpliesMention(perms);
  }

  /** `_generate_finish_args`, reading the check boxes and the "customPerms" field of the form. */
  method GenerateFinishArgs(form: FormState) returns (args: seq<string>)
    ensures args == FinishArgsOf(form.perms, FieldValue(form, "customPerms"))
  {
    args := [IpcFlag];
    var i := 0;
    while i < |PermissionFlags|
      invariant 0 <= i <= |PermissionFlags|
      invariant args == [IpcFlag] + Selected(form.perms, PermissionFlags[..i])
    {
      var (key, flag) := PermissionFlags[i];
      if Toggled(form.perms, key) {
        args := args + [flag];
      }
      assert PermissionFlags[..i + 1][..i] == PermissionFlags[..i];
      i := i + 1;
    }
    assert PermissionFlags[..i] == PermissionFlags;
    DisplayMentionIff(form.perms);
    if !(Contains(Join(args, " "), "x11") || Contains(Join(args, " "), "wayland")) {
      args := args + [FallbackFlag];
    }
    var custom := FieldValue(form, "customPerms");
    if custom != "" {
      args := args + StrippedNonBlank(Split(custom, '\n'));
    }
  }

  /** Facts about the table the shape lemmas share. */
  lemma TableFacts(perms: map<string, bool>)
    ensures DistinctFlags(PermissionFlags)
    ensures forall i :: 0 <= i < |PermissionFlags| ==> PermissionFlags[i].1 != IpcFlag && PermissionFlags[i].1 != FallbackFlag
    ensures IpcFlag !in Selected(perms, PermissionFlags) && FallbackFlag !in Selected(perms, PermissionFlags)
  {
    var t := PermissionFlags;
    PermissionFlagsDistinct();
    assert t[0].1 == "--socket=x11" && t[1].1 == "--socket=wayland" && t[2].1 == "--share=network";
    assert t[3].1 == "--filesystem=home" && t[4].1 == "--device=dri";
    forall i | 0 <= i < |t| ensures t[i].1 != IpcFlag && t[i].1 != FallbackFlag {
      assert i == 0 || i == 1 || i == 2 || i == 3 || i == 4;
    }
    SelectedMembers(perms, t);
  }

  /** A table flag is among the built-in flags exactly when its box is checked. */
  lemma BuiltinFlagIff(perms: map<string, bool>, i: nat)
    requires i < |PermissionFlags|
    ensures PermissionFlags[i].1 in BuiltinArgs(perms) <==> Toggled(perms, PermissionFlags[i].0)
  {
    var t := PermissionFlags;
    var s := Selected(perms, t);
    TableFacts(perms);
    SelectedMembers(perms, t);
    assert t[i].1 in BuiltinArgs(perms) <==> t[i].1 in s;
    if t[i].1 in s {
      var j :| 0 <= j < |t| && t[j].1 == t[i].1 && Toggled(perms, t[j].0);
      assert i == j;
    }
  }

  /** No flag occurs twice among the built-in flags. */
  lemma BuiltinDistinct(perms: map<string, bool>)
    ensures forall k, l :: 0 <= k < l < |BuiltinArgs(perms)| ==> BuiltinArgs(perms)[k] != BuiltinArgs(perms)[l]
  {
    var s := Selected(perms, PermissionFlags);
    var b := BuiltinArgs(perms);
    TableFacts(perms);
    SelectedDistinct(perms, PermissionFlags);
    forall k, l | 0 <= k < l < |b| ensures b[k] != b[l] {
      if k == 0 {
        assert b[l] in s || b[l] == FallbackFlag;
      } else if l < |s| + 1 {
        assert b[k] == s[k - 1] && b[l] == s[l - 1];
      } else {
        assert b[k] in s && b[l] == FallbackFlag;
      }
    }
  }

  /**
    The shape of the built-in flags: IPC first; a table flag is present
    exactly when its box is checked; the fallback socket is present exactly
    when neither display box is checked; and no flag occurs twice, so the
    fallback at most once.
   */
  lemma BuiltinArgsShape(perms: map<string, bool>)
    ensures BuiltinArgs(perms)[0] == IpcFlag
    ensures forall i :: 0 <= i < |PermissionFlags| ==>
      (PermissionFlags[i].1 in BuiltinArgs(perms) <==> Toggled(perms, PermissionFlags[i].0))
    ensures FallbackFlag in BuiltinArgs(perms) <==> !HasDisplay(perms)
    ensures forall k, l :: 0 <= k < l < |BuiltinArgs(perms)| ==> BuiltinArgs(perms)[k] != BuiltinArgs(perms)[l]
  {
    TableFacts(perms);
    forall i | 0 <= i < |PermissionFlags|
      ensures PermissionFlags[i].1 in BuiltinArgs(perms) <==> Toggled(perms, PermissionFlags[i].0)
    {
      BuiltinFlagIff(perms, i);
    }
    BuiltinDistinct(perms);
  }

  /** The custom lines come after all built-in flags. */
  lemma CustomAfterBuiltins(perms: map<string, bool>, custom: string)
    ensures var r := FinishArgsOf(perms, custom);
      |r| == |BuiltinArgs(perms)| + |CustomLines(custom)| &&
      r[..|BuiltinArgs(perms)|] == BuiltinArgs(perms) && r[|BuiltinArgs(perms)|..] == CustomLines(custom)
  {
  }

  /** The line filter keeps the input order: it distributes over concatenation. */
  lemma {:induction false} StrippedNonBlankAppend(a: seq<string>, b: seq<string>)
    ensures StrippedNonBlank(a + b) == StrippedNonBlank(a) + StrippedNonBlank(b)
  {
    if a != [] {
      var ab := a + b;
      assert ab[0] == a[0] && ab[1..] == a[1..] + b;
      StrippedNonBlankAppend(a[1..], b);
    } else {
      assert a + b == b;
    }
  }

  /** A blank line contributes nothing. */
  lemma StrippedNonBlankDropsBlank(a: seq<string>, line: string, b: seq<string>)
    requires Strip(line) == ""
    ensures StrippedNonBlank(a + [line] + b) == StrippedNonBlank(a + b)
  {
    BlankLineDropped(line);
    StrippedNonBlankAppend(a + [line], b);
    StrippedNonBlankAppend(a, [line]);
    StrippedNonBlankAppend(a, b);
  }

  lemma BlankLineDropped(line: string)
    requires Strip(line) == ""
    ensures StrippedNonBlank([line]) == []
  {
    assert [line][1..] == [];
  }

  /** One line gives its stripped text, or nothing when that is empty. */
  lemma StrippedNonBlankOne(line: string)
    ensures StrippedNonBlank([line]) == if Strip(line) == "" then [] else [Strip(line)]
  {
    assert [line][1..] == [];
  }

  /** A non-blank line contributes its stripped text at its own place in the order. */
  lemma StrippedNonBlankKeepsLine(a: seq<string>, line: string, b: seq<string>)
    requires Strip(line) != ""
    ensures StrippedNonBlank(a + [line] + b) == StrippedNonBlank(a) + [Strip(line)] + StrippedNonBlank(b)
  {
    StrippedNonBlankOne(line);
    StrippedNonBlankAppend(a + [line], b);
    StrippedNonBlankAppend(a, [line]);
  }

  /** Lines that are already trimmed and non-blank pass the filter unchanged. */
  lemma {:induction false} StrippedNonBlankOfClean(lines: seq<string>)
    requires forall k :: 0 <= k < |lines| ==> lines[k] != "" && Stripped(lines[k])
    ensures StrippedNonBlank(lines) == lines
  {
    if lines != [] {
      StripStripped(lines[0]);
      StrippedNonBlankOfClean(lines[1..]);
      assert lines == [lines[0]] + lines[1..];
    }
  }

  /**
    Writing trimmed, non-blank permission lines one per line gives them back
    as the custom part of the flag list, in the same order.
   */
  lemma CustomLinesRoundTrip(lines: seq<string>)
    requires |lines| >= 1
    requires forall k :: 0 <= k < |lines| ==> lines[k] != "" && Stripped(lines[k]) && '\n' !in lines[k]
    ensures CustomLines(Join(lines, "\n")) == lines
  {
    SplitJoin(lines, '\n');
    StrippedNonBlankOfClean(lines);
  }
}
