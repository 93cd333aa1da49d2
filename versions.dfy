/**
  The runtime and SDK pickers: the built-in version table, the versions
  installed on the system (read from the `flatpak list --runtime
  --columns=application,branch` output), and the merged, sorted lists the
  pickers offer.
 */
module Versions {
  import opened Wrappers
  import opened Text
  import opened Order

  /** The builder's built-in branches per runtime and SDK id. */
  const VersionMap: map<string, seq<string>> := map[
    "org.gnome.Platform" := ["47", "46", "45", "44"],
    "org.gnome.Sdk" := ["47", "46", "45", "44"],
    "org.kde.Platform" := ["6.8", "6.7", "6.6"],
    "org.kde.Sdk" := ["6.8", "6.7", "6.6"],
    "org.freedesktop.Platform" := ["23.08", "22.08"],
    "org.freedesktop.Sdk" := ["23.08", "22.08"]]

  /** The version offered when nothing at all is known about a ref. */
  const DefaultVersion := "23.08"

  function Elements(xs: seq<string>): set<string>
  {
    set x | x in xs
  }

  /** `d.get(ref, [])` as a set. */
  function KnownVersions(d: map<string, seq<string>>, ref: string): set<string>
  {
    if ref in d then Elements(d[ref]) else {}
  }

  /**
    `_get_combined_versions`: the installed and the built-in versions of
    `ref`, each once, newest (greatest string) first; the default version
    when neither knows the ref.
   */
  function CombinedVersions(ref: string, installed: map<string, seq<string>>): (r: seq<string>)
    ensures var all := KnownVersions(installed, ref) + KnownVersions(VersionMap, ref);
      && (all == {} ==> r == [DefaultVersion])
      && (all != {} ==> |r| == |all| && (forall x :: x in r <==> x in all) && StrictlyDescending(r))
  {
    var all := KnownVersions(installed, ref) + KnownVersions(VersionMap, ref);
    if all != {} then SortedDesc(all) else [DefaultVersion]
  }

  /** Any duplicate-free, descending listing of the known versions is the one the picker shows. */
  lemma CombinedVersionsUnique(ref: string, installed: map<string, seq<string>>, xs: seq<string>)
    requires StrictlyDescending(xs)
    requires forall x :: x in xs <==> x in KnownVersions(installed, ref) + KnownVersions(VersionMap, ref)
    requires xs != []
    ensures CombinedVersions(ref, installed) == xs
  {
    assert xs[0] in xs;
    DescendingUnique(CombinedVersions(ref, installed), xs);
  }

  /** With nothing installed, the GNOME platform offers its built-in branches, newest first. */
  lemma GnomeVersionsWithNothingInstalled()
    ensures CombinedVersions("org.gnome.Platform", map[]) == ["47", "46", "45", "44"]
  {
    var xs := ["47", "46", "45", "44"];
    assert Less("46", "47") && Less("45", "46") && Less("44", "45");
    forall i, j | 0 <= i < j < |xs| ensures Less(xs[j], xs[i]) {
      if j == i + 1 {
      } else if j == i + 2 {
        LessTransitive(xs[j], xs[i + 1], xs[i]);
      } else {
        LessTransitive(xs[3], xs[2], xs[1]);
        LessTransitive(xs[3], xs[1], xs[0]);
      }
    }
    assert KnownVersions(VersionMap, "org.gnome.Platform") == Elements(xs);
    CombinedVersionsUnique("org.gnome.Platform", map[], xs);
  }

  /** An unknown ref with nothing installed falls back to the default version. */
  lemma UnknownRefGetsDefault(ref: string, installed: map<string, seq<string>>)
    requires ref !in VersionMap
    requires ref !in installed || installed[ref] == []
    ensures CombinedVersions(ref, installed) == [DefaultVersion]
  {
  }

  /**
    `get_available_runtimes`: the installed runtime ids and every id of the
    built-in table, each once, in ascending order.
   */
  function AvailableRuntimes(installedRuntimes: map<string, seq<string>>): (r: seq<string>)
    ensures forall x :: x in r <==> x in installedRuntimes || x in VersionMap
    ensures StrictlyAscending(r)
  {
    SortedAsc(installedRuntimes.Keys + VersionMap.Keys)
  }

  /** The SDK ids of the built-in table. */
  function BuiltinSdks(): set<string>
  {
    set k | k in VersionMap && EndsWith(k, ".Sdk")
  }

  /**
    `get_available_sdks`: the installed SDK ids and the `.Sdk` ids of the
    built-in table, each once, in ascending order.
   */
  function AvailableSdks(installedSdks: map<string, seq<string>>): (r: seq<string>)
    ensures forall x :: x in r <==> x in installedSdks || (x in VersionMap && EndsWith(x, ".Sdk"))
    ensures StrictlyAscending(r)
  {
    SortedAsc(installedSdks.Keys + BuiltinSdks())
  }

  /**
    The runtime picker also lists the built-in SDK ids, because the table's
    keys are taken without a `.Platform` filter; the SDK picker does not list
    the built-in platform ids.
   */
  lemma RuntimePickerListsSdks(installedRuntimes: map<string, seq<string>>, installedSdks: map<string, seq<string>>)
    requires "org.gnome.Platform" !in installedSdks
    ensures "org.gnome.Sdk" in AvailableRuntimes(installedRuntimes)
    ensures "org.gnome.Platform" !in AvailableSdks(installedSdks)
  {
    assert "org.gnome.Sdk" in VersionMap;
    assert !EndsWith("org.gnome.Platform", ".Sdk") by {
      assert "org.gnome.Platform"[|"org.gnome.Platform"| - 4..] == "form";
    }
  }

  datatype RefKind = RuntimeRef | SdkRef

  /** `.Sdk` refs are SDKs; otherwise `.Platform` refs are runtimes; anything else is ignored. */
  function Classify(ref: string): (r: Option<RefKind>)
    ensures r == Some(SdkRef) <==> EndsWith(ref, ".Sdk")
    ensures r == Some(RuntimeRef) <==> EndsWith(ref, ".Platform")
  {
    assert EndsWith(ref, ".Sdk") ==> ref[|ref| - 1] == 'k';
    assert EndsWith(ref, ".Platform") ==> ref[|ref| - 1] == 'm';
    if EndsWith(ref, ".Sdk") then Some(SdkRef)
    else if EndsWith(ref, ".Platform") then Some(RuntimeRef)
    else None
  }

  /** `ref, branch = line.split('\t')` succeeds: the line has exactly two columns. */
  predicate TwoColumns(line: string)
  {
    |Split(line, '\t')| == 2
  }

  /** The number of leading lines the loop gets through before the unpacking fails. */
  function ParsedCount(lines: seq<string>): (n: nat)
    ensures n <= |lines|
    ensures forall j :: 0 <= j < n ==> TwoColumns(lines[j])
    ensures n < |lines| ==> !TwoColumns(lines[n])
  {
    if lines == [] || !TwoColumns(lines[0]) then 0
    else
      var n' := ParsedCount(lines[1..]);
      assert forall j :: 1 <= j <= n' && j < |lines| ==> lines[j] == lines[1..][j - 1];
      1 + n'
  }

  function SetOf(m: map<string, set<string>>, ref: string): set<string>
  {
    if ref in m then m[ref] else {}
  }

  /** `m.setdefault(ref, set()).add(branch)`. */
  function Record(m: map<string, set<string>>, ref: string, branch: string): (r: map<string, set<string>>)
    ensures r.Keys == m.Keys + {ref}
    ensures r[ref] == SetOf(m, ref) + {branch}
    ensures forall k :: k in m && k != ref ==> r[k] == m[k]
  {
    m[ref := SetOf(m, ref) + {branch}]
  }

  /** One step of the loop: `setdefault(ref, set()).add(branch)` when the line names a ref of the given kind. */
  function AddLine(m: map<string, set<string>>, line: string, kind: RefKind): map<string, set<string>>
  {
    var parts := Split(line, '\t');
    if |parts| == 2 && Classify(parts[0]) == Some(kind) then Record(m, parts[0], parts[1])
    else m
  }

  /** The step on a two-column line, as the source's `if`/`elif` on the ref's ending takes it. */
  lemma AddLineCases(runtimes: map<string, set<string>>, sdks: map<string, set<string>>, line: string)
    requires TwoColumns(line)
    ensures var ref, branch := Split(line, '\t')[0], Split(line, '\t')[1];
      && AddLine(sdks, line, SdkRef) == (if EndsWith(ref, ".Sdk") then Record(sdks, ref, branch) else sdks)
      && AddLine(runtimes, line, RuntimeRef) ==
         (if !EndsWith(ref, ".Sdk") && EndsWith(ref, ".Platform") then Record(runtimes, ref, branch) else runtimes)
  {
  }

  /** The branches per ref of the given kind that the loop collects over `lines`. */
  function Branches(lines: seq<string>, kind: RefKind): map<string, set<string>>
  {
    if lines == [] then map[]
    else AddLine(Branches(lines[..|lines| - 1], kind), lines[|lines| - 1], kind)
  }

  /** A line names `ref` and `b` as its two columns, and `ref` is of the given kind. */
  predicate Names(line: string, ref: string, b: string, kind: RefKind)
  {
    TwoColumns(line) && Split(line, '\t')[0] == ref && Split(line, '\t')[1] == b && Classify(ref) == Some(kind)
  }

  /** Only refs of the requested kind are recorded. */
  lemma {:induction false} BranchesKind(lines: seq<string>, kind: RefKind, ref: string)
    requires ref in Branches(lines, kind)
    ensures Classify(ref) == Some(kind)
  {
    var n := |lines| - 1;
    if ref in Branches(lines[..n], kind) {
      BranchesKind(lines[..n], kind, ref);
    }
  }

  /** One loop step records a pair exactly when it was recorded before or the line names it. */
  lemma AddLineMember(m: map<string, set<string>>, line: string, kind: RefKind, ref: string, b: string)
    ensures ref in AddLine(m, line, kind) && b in AddLine(m, line, kind)[ref] <==>
      (ref in m && b in m[ref]) || Names(line, ref, b, kind)
  {
  }

  /** Some line of `lines` names `ref` and `b`. */
  predicate NamedIn(lines: seq<string>, ref: string, b: string, kind: RefKind)
  {
    exists j :: 0 <= j < |lines| && Names(lines[j], ref, b, kind)
  }

  lemma NamedInSnoc(lines: seq<string>, ref: string, b: string, kind: RefKind)
    requires lines != []
    ensures NamedIn(lines, ref, b, kind) <==>
      NamedIn(lines[..|lines| - 1], ref, b, kind) || Names(lines[|lines| - 1], ref, b, kind)
  {
    var n := |lines| - 1;
    var init := lines[..n];
    if NamedIn(init, ref, b, kind) {
      var j :| 0 <= j < n && Names(init[j], ref, b, kind);
      assert init[j] == lines[j];
    }
    if NamedIn(lines, ref, b, kind) {
      var j :| 0 <= j < |lines| && Names(lines[j], ref, b, kind);
      if j < n {
        assert init[j] == lines[j];
      }
    }
  }

  /** A branch is recorded for a ref exactly when some two-column line names that ref and branch. */
  lemma {:induction false} BranchesMember(lines: seq<string>, kind: RefKind, ref: string, b: string)
    ensures ref in Branches(lines, kind) && b in Branches(lines, kind)[ref] <==> NamedIn(lines, ref, b, kind)
  {
    if lines != [] {
      var n := |lines| - 1;
      BranchesMember(lines[..n], kind, ref, b);
      AddLineMember(Branches(lines[..n], kind), lines[n], kind, ref, b);
      NamedInSnoc(lines, ref, b, kind);
    }
  }

  /** `{k: sorted(list(v), reverse=True) for k, v in d.items()}`. */
  function Listed(m: map<string, set<string>>): (r: map<string, seq<string>>)
    ensures r.Keys == m.Keys
    ensures forall k :: k in r ==> (forall x :: x in r[k] <==> x in m[k]) && StrictlyDescending(r[k])
  {
    map k | k in m :: SortedDesc(m[k])
  }

  /** The lines of the command's output: `stdout.strip().split('\n')`. */
  function OutputLines(stdout: string): seq<string>
  {
    Split(Strip(stdout), '\n')
  }

  /** The lines the loop gets through. */
  function ScannedLines(stdout: string): seq<string>
  {
    var lines := OutputLines(stdout);
    lines[..ParsedCount(lines)]
  }

  /**
    `detect_installed_refs`. `output` is the command's standard output, or
    `None` when the command fails. A line that does not have exactly two
    tab-separated columns raises in the source and ends the scan; the refs
    gathered up to there are still returned.
   */
  method DetectInstalledRefs(output: Option<string>) returns (runtimes: map<string, seq<string>>, sdks: map<string, seq<string>>)
    ensures output.None? ==> runtimes == map[] && sdks == map[]
    ensures output.Some? ==>
      && runtimes == Listed(Branches(ScannedLines(output.value), RuntimeRef))
      && sdks == Listed(Branches(ScannedLines(output.value), SdkRef))
  {
    var found: map<string, set<string>> := map[];
    var foundSdks: map<string, set<string>> := map[];
    if output.Some? {
      var lines := OutputLines(output.value);
      var i := 0;
      while i < |lines| && TwoColumns(lines[i])
        invariant 0 <= i <= ParsedCount(lines)
        invariant found == Branches(lines[..i], RuntimeRef)
        invariant foundSdks == Branches(lines[..i], SdkRef)
      {
        var parts := Split(lines[i], '\t');
        var ref, branch := parts[0], parts[1];
        BranchesStep(lines, i, RuntimeRef);
        BranchesStep(lines, i, SdkRef);
        AddLineCases(found, foundSdks, lines[i]);
        if EndsWith(ref, ".Sdk") {
          foundSdks := Record(foundSdks, ref, branch);
        } else if EndsWith(ref, ".Platform") {
          found := Record(found, ref, branch);
        }
        i := i + 1;
      }
      assert lines[..i] == ScannedLines(output.value);
    }
    runtimes := Listed(found);
    sdks := Listed(foundSdks);
  }

  lemma BranchesStep(lines: seq<string>, i: nat, kind: RefKind)
    requires i < |lines|
    ensures Branches(lines[..i + 1], kind) == AddLine(Branches(lines[..i], kind), lines[i], kind)
  {
    assert lines[..i + 1][..i] == lines[..i] && lines[..i + 1][i] == lines[i];
  }

  /** Empty output is one empty line, which cannot be unpacked: nothing is found. */
  lemma EmptyOutputFindsNothing(stdout: string)
    requires Strip(stdout) == ""
    ensures Branches(ScannedLines(stdout), RuntimeRef) == map[]
    ensures Branches(ScannedLines(stdout), SdkRef) == map[]
  {
    assert OutputLines(stdout) == [""];
    assert Split("", '\t') == [""];
  }

  /** Nothing after the first line without two columns is looked at. */
  lemma StopsAtMalformedLine(stdout: string, j: nat)
    requires j < |OutputLines(stdout)| && !TwoColumns(OutputLines(stdout)[j])
    ensures |ScannedLines(stdout)| <= j
  {
  }
}
