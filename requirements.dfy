/**
  Python dependencies: `_create_requirements_txt` gathers the top-level
  names imported by the project's `.py` files, drops the standard library
  and writes the rest sorted, one per line; `run_dependency_generator` reads
  the package lines back and turns them into one `pip3 install` module.
 */
module Requirements {
  import opened Wrappers
  import opened Text
  import opened Order
  import opened Manifest

  /** The import statements of a parsed file, in `ast.walk` order; other nodes are `OtherNode`. */
  datatype ImportNode =
    | Import(names: seq<string>)
    | ImportFrom(from: Option<string>)
    | OtherNode

  /** A file of the project: its name and, when `ast.parse` succeeds, its nodes. */
  datatype SourceFile = SourceFile(name: string, tree: Option<seq<ImportNode>>)

  /** `name.split('.')[0]`: the top-level package of a dotted name. */
  function Root(name: string): (r: string)
    ensures '.' !in r
    ensures StartsWith(name, r)
    ensures r == name || name[|r|] == '.'
  {
    var parts := Split(name, '.');
    assert |parts| > 1 ==> Join(parts, ".") == parts[0] + "." + Join(parts[1..], ".");
    parts[0]
  }

  /** The names one node adds: every alias of an `import`, the module of a `from` import that names one. */
  function NodeImports(node: ImportNode): set<string>
  {
    match node
    case Import(names) => set a | a in names :: Root(a)
    case ImportFrom(from) => if from.Some? && from.value != "" then {Root(from.value)} else {}
    case OtherNode => {}
  }

  function NodesImports(nodes: seq<ImportNode>): set<string>
  {
    if nodes == [] then {} else NodesImports(nodes[..|nodes| - 1]) + NodeImports(nodes[|nodes| - 1])
  }

  /** What one file contributes: nothing unless it is a `.py` file that parses. */
  function FileImports(f: SourceFile): set<string>
  {
    if EndsWith(f.name, ".py") && f.tree.Some? then NodesImports(f.tree.value) else {}
  }

  function ImportsOf(files: seq<SourceFile>): set<string>
  {
    if files == [] then {} else ImportsOf(files[..|files| - 1]) + FileImports(files[|files| - 1])
  }

  /** The inner loop over `node.names`: the top-level package of every alias. */
  method AliasRoots(names: seq<string>) returns (roots: set<string>)
    ensures roots == NodeImports(Import(names))
  {
    roots := {};
    var a := 0;
    while a < |names|
      invariant 0 <= a <= |names|
      invariant roots == set x | x in names[..a] :: Root(x)
    {
      assert (set x | x in names[..a + 1] :: Root(x)) == (set x | x in names[..a] :: Root(x)) + {Root(names[a])} by {
        assert names[..a + 1] == names[..a] + [names[a]];
      }
      roots := roots + {Root(names[a])};
      a := a + 1;
    }
    assert names[..a] == names;
  }

  /** The import-gathering loops of `_create_requirements_txt`. */
  method CollectImports(files: seq<SourceFile>) returns (imports: set<string>)
    ensures imports == ImportsOf(files)
  {
    imports := {};
    var i := 0;
    while i < |files|
      invariant 0 <= i <= |files|
      invariant imports == ImportsOf(files[..i])
    {
      var f := files[i];
      assert files[..i + 1][..i] == files[..i] && files[..i + 1][i] == f;
      if EndsWith(f.name, ".py") && f.tree.Some? {
        var nodes := f.tree.value;
        var k := 0;
        ghost var before := imports;
        while k < |nodes|
          invariant 0 <= k <= |nodes|
          invariant imports == before + NodesImports(nodes[..k])
        {
          assert nodes[..k + 1][..k] == nodes[..k] && nodes[..k + 1][k] == nodes[k];
          match nodes[k] {
            case Import(names) =>
              var roots := AliasRoots(names);
              imports := imports + roots;
            case ImportFrom(from) =>
              if from.Some? && from.value != "" {
                imports := imports + {Root(from.value)};
              }
            case OtherNode =>
          }
          k := k + 1;
        }
        assert nodes[..k] == nodes;
      }
      i := i + 1;
    }
    assert files[..i] == files;
  }

  /** A gathered name is the top-level package of an import in a parsed `.py` file, and holds no dot. */
  lemma {:induction false} ImportsComeFromPythonFiles(files: seq<SourceFile>, x: string)
    requires x in ImportsOf(files)
    ensures '.' !in x
    ensures exists i ::
      && 0 <= i < |files| && EndsWith(files[i].name, ".py") && files[i].tree.Some?
      && x in NodesImports(files[i].tree.value)
  {
    var n := |files| - 1;
    if x in ImportsOf(files[..n]) {
      ImportsComeFromPythonFiles(files[..n], x);
      var i :|
        && 0 <= i < n && EndsWith(files[..n][i].name, ".py") && files[..n][i].tree.Some?
        && x in NodesImports(files[..n][i].tree.value);
      assert files[..n][i] == files[i];
    } else {
      NodesHaveNoDot(files[n].tree.value, x);
    }
  }

  /** Every import root of a parsed `.py` file is gathered. */
  lemma {:induction false} ImportsOfCovers(files: seq<SourceFile>, i: nat)
    requires i < |files|
    ensures FileImports(files[i]) <= ImportsOf(files)
  {
    var n := |files| - 1;
    if i < n {
      ImportsOfCovers(files[..n], i);
      assert files[..n][i] == files[i];
    }
  }

  /** Every import root of a node is gathered from the nodes that hold it. */
  lemma {:induction false} NodesImportsCovers(nodes: seq<ImportNode>, k: nat)
    requires k < |nodes|
    ensures NodeImports(nodes[k]) <= NodesImports(nodes)
  {
    var n := |nodes| - 1;
    if k < n {
      NodesImportsCovers(nodes[..n], k);
      assert nodes[..n][k] == nodes[k];
    }
  }

  lemma {:induction false} NodesHaveNoDot(nodes: seq<ImportNode>, x: string)
    requires x in NodesImports(nodes)
    ensures '.' !in x
  {
    var n := |nodes| - 1;
    if x in NodesImports(nodes[..n]) {
      NodesHaveNoDot(nodes[..n], x);
    }
  }

  /** The content of `requirements.txt`: the non-standard names, sorted, one per line. */
  function RequirementsText(imports: set<string>, stdlib: set<string>): string
  {
    Join(SortedAsc(imports - stdlib), "\n")
  }

  /** `line.strip()` is a package line: not blank and not a `#` comment (for non-blank text, `startswith('#')` is a test of the first character). */
  predicate IsPackageLine(stripped: string)
  {
    stripped != "" && stripped[0] != '#'
  }

  /** `[line.strip() for line in f if line.strip() and not line.strip().startswith('#')]`. */
  function PackageLines(lines: seq<string>): (r: seq<string>)
    ensures |r| <= |lines|
    ensures forall k :: 0 <= k < |r| ==> IsPackageLine(r[k]) && Stripped(r[k])
  {
    if lines == [] then []
    else
      var rest := PackageLines(lines[1..]);
      var head := Strip(lines[0]);
      if IsPackageLine(head) then
        assert Stripped(head);
        assert forall k :: 1 <= k <= |rest| ==> ([head] + rest)[k] == rest[k - 1];
        [head] + rest
      else rest
  }

  /** The package lines of a requirements file's text. */
  function Requirements(text: string): seq<string>
  {
    PackageLines(Split(text, '\n'))
  }

  /** Lines that are already package lines pass the filter unchanged. */
  lemma {:induction false} PackageLinesOfClean(lines: seq<string>)
    requires forall k :: 0 <= k < |lines| ==> IsPackageLine(lines[k]) && Stripped(lines[k])
    ensures PackageLines(lines) == lines
  {
    if lines != [] {
      StripStripped(lines[0]);
      PackageLinesOfClean(lines[1..]);
      assert lines == [lines[0]] + lines[1..];
    }
  }

  /** The filter keeps the input order and drops comment and blank lines wherever they are. */
  lemma {:induction false} PackageLinesAppend(a: seq<string>, b: seq<string>)
    ensures PackageLines(a + b) == PackageLines(a) + PackageLines(b)
  {
    if a != [] {
      var ab := a + b;
      assert ab[0] == a[0] && ab[1..] == a[1..] + b;
      PackageLinesAppend(a[1..], b);
    } else {
      assert a + b == b;
    }
  }

  /** A comment line contributes nothing. */
  lemma DropsCommentLine(a: seq<string>, line: string, b: seq<string>)
    requires StartsWith(Strip(line), "#")
    ensures PackageLines(a + [line] + b) == PackageLines(a + b)
  {
    CommentLineDropped(line);
    PackageLinesAppend(a + [line], b);
    PackageLinesAppend(a, [line]);
    PackageLinesAppend(a, b);
  }

  lemma CommentLineDropped(line: string)
    requires StartsWith(Strip(line), "#")
    ensures PackageLines([line]) == []
  {
    assert Strip(line)[..1] == "#";
    assert [line][1..] == [];
  }

  /** One line gives its stripped text when that is a package line, and nothing otherwise. */
  lemma PackageLinesOne(line: string)
    ensures PackageLines([line]) == if IsPackageLine(Strip(line)) then [Strip(line)] else []
  {
    assert [line][1..] == [];
  }

  /** A blank or whitespace-only line contributes nothing, wherever it is. */
  lemma DropsBlankLine(a: seq<string>, line: string, b: seq<string>)
    requires Strip(line) == ""
    ensures PackageLines(a + [line] + b) == PackageLines(a + b)
  {
    PackageLinesOne(line);
    PackageLinesAppend(a + [line], b);
    PackageLinesAppend(a, [line]);
    PackageLinesAppend(a, b);
  }

  /** A package line, padded or not, contributes its stripped text at its own place in the order. */
  lemma KeepsPackageLine(a: seq<string>, line: string, b: seq<string>)
    requires IsPackageLine(Strip(line))
    ensures PackageLines(a + [line] + b) == PackageLines(a) + [Strip(line)] + PackageLines(b)
  {
    PackageLinesOne(line);
    PackageLinesAppend(a + [line], b);
    PackageLinesAppend(a, [line]);
  }

  /** Package names written one per line are read back unchanged and in order. */
  lemma RequirementsOfJoined(xs: seq<string>)
    requires forall k :: 0 <= k < |xs| ==> IsPackageLine(xs[k]) && Stripped(xs[k]) && '\n' !in xs[k]
    ensures Requirements(Join(xs, "\n")) == xs
  {
    if xs == [] {
      assert Split("", '\n') == [""];
      assert PackageLines([""]) == [] by {
        assert !IsPackageLine(Strip(""));
        assert [""][1..] == [];
      }
    } else {
      SplitJoin(xs, '\n');
      PackageLinesOfClean(xs);
    }
  }

  /**
    Reading back the file `_create_requirements_txt` writes gives exactly the
    non-standard imports, sorted: the two halves agree, for any names that
    are trimmed, not comments and free of line breaks.
   */
  lemma RequirementsRoundTrip(imports: set<string>, stdlib: set<string>)
    requires forall x :: x in imports ==> IsPackageLine(x) && Stripped(x) && '\n' !in x
    ensures Requirements(RequirementsText(imports, stdlib)) == SortedAsc(imports - stdlib)
    ensures var r := Requirements(RequirementsText(imports, stdlib));
      (forall x :: x in r <==> x in imports && x !in stdlib) && StrictlyAscending(r)
  {
    var rest := imports - stdlib;
    var pkgs := SortedAsc(rest);
    forall k | 0 <= k < |pkgs| ensures IsPackageLine(pkgs[k]) && Stripped(pkgs[k]) && '\n' !in pkgs[k] {
      var x := pkgs[k];
      assert x in pkgs;
      assert x in rest;
      assert x in imports;
    }
    RequirementsOfJoined(pkgs);
  }

  const InstallPrefix := "pip3 install --prefix=/app "
  const InstallMessage := "echo 'Installing Python dependencies...'"

  /** `f"pip3 install --prefix=/app {' '.join(lines)}"`. */
  function InstallCommand(pkgs: seq<string>): string
  {
    InstallPrefix + Join(pkgs, " ")
  }

  /** Every package appears in the install command. */
  lemma InstallCommandNamesEveryPackage(pkgs: seq<string>, k: nat)
    requires k < |pkgs|
    ensures StartsWith(InstallCommand(pkgs), InstallPrefix)
    ensures Contains(InstallCommand(pkgs), pkgs[k])
  {
    assert Contains(pkgs[k], pkgs[k]) by {
      assert pkgs[k][..|pkgs[k]|] == pkgs[k];
    }
    JoinedContains(pkgs, " ", k, pkgs[k]);
    ContainsAppendRight(InstallPrefix, Join(pkgs, " "), pkgs[k]);
    assert InstallCommand(pkgs)[..|InstallPrefix|] == InstallPrefix;
  }

  /**
    The module `run_dependency_generator` builds from the requirements text;
    `None` when the file has no package lines.
   */
  function DependencyModule(text: string): (r: Option<Module>)
    ensures r.None? <==> Requirements(text) == []
    ensures r.Some? ==>
      && r.value.name == "python-dependencies" && r.value.buildsystem == "simple"
      && r.value.buildArgs == Some(["--share=network"])
      && r.value.sources == [ScriptSource([InstallMessage])]
      && r.value.buildCommands == Some([InstallCommand(Requirements(text))])
  {
    var lines := Requirements(text);
    if lines == [] then None
    else Some(Module("python-dependencies", "simple", Some(["--share=network"]), Some([InstallCommand(lines)]),
                     [ScriptSource([InstallMessage])]))
  }

  /**
    A requirements file written by `_create_requirements_txt` and read back by
    `run_dependency_generator` yields no module exactly when every import is
    a standard module, and otherwise one `pip3 install` of the remaining
    names, sorted.
   */
  lemma GeneratedRequirementsModule(imports: set<string>, stdlib: set<string>)
    requires forall x :: x in imports ==> IsPackageLine(x) && Stripped(x) && '\n' !in x
    ensures DependencyModule(RequirementsText(imports, stdlib)).None? <==> imports - stdlib == {}
    ensures var r := DependencyModule(RequirementsText(imports, stdlib));
      r.Some? ==> r.value.buildCommands == Some([InstallCommand(SortedAsc(imports - stdlib))])
  {
    RequirementsRoundTrip(imports, stdlib);
  }
}
