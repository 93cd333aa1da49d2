# Flatpak manifest builder: the form-to-manifest layer

The Python GUI class `FlatpakBuilder` lets a user fill in a form and turns it
into a Flatpak manifest for an application. This project models the part of
that class that is logic rather than widgets, and proves properties of it.
The modelled parts are:

- reading a form field (`get_field_value`): the text is stripped, and a field
  that shows its placeholder reads as empty;
- the App-ID check: the regular expression
  `^[a-zA-Z][a-zA-Z0-9_]*(\.[a-zA-Z][a-zA-Z0-9_]*){2,}$` written as a
  scanner, plus `validate_dns_format` and `validate_field`;
- `validate_configuration`: the required fields, checked in the order of the
  table, then the App-ID syntax, then the source location;
- the sanitising of the application name into a command name, and
  `generate_app_id`;
- `_generate_finish_args`: IPC first, then the flags of the checked boxes in
  the order x11, wayland, network, home, dri, then the X11 fallback socket
  when no display was asked for, then the custom permission lines;
- `_generate_main_module` and the manifest record of
  `_generate_manifest_content`, composed the way `generate_files` and
  `export_manifest_only` compose them;
- the version pickers: `VERSION_MAP`, `_get_combined_versions`,
  `get_available_runtimes`, `get_available_sdks`, and the parsing of
  `flatpak list` output in `detect_installed_refs`;
- the Python-dependency path: gathering imports in `_create_requirements_txt`,
  and the line filter and `pip3 install` module of `run_dependency_generator`.

The files, one module each:

- `wrappers.dfy`: `Option` and `Result`;
- `text.dfy`: Python's `strip`, `split`, `join`, `in`, `startswith`,
  `endswith` and `os.path.basename` on `string`;
- `order.dfy`: Python's `<` on `str`, and `sorted` over a set, both ascending
  and with `reverse=True`;
- `form.dfy`: the form state;
- `appid.dfy`: the App-ID pattern, name sanitising and ID generation;
- `validation.dfy`: `validate_configuration`;
- `permissions.dfy`: the finish args;
- `manifest.dfy`: modules, the manifest and generation;
- `versions.dfy`: the pickers and installed refs;
- `requirements.dfy`: `requirements.txt` and the dependency module.

The form is a value (`Form.FormState`). It holds:

- the text of each field;
- the placeholder texts;
- the set of fields that own an error label;
- the source type, source path and archive hash;
- the check-box states.

The loops and step-by-step procedures of the source are methods, each proved
against a specification function:

- `Validation.ValidateConfiguration`;
- `Permissions.GenerateFinishArgs`;
- `Versions.DetectInstalledRefs`;
- `Requirements.CollectImports` and its inner loop `Requirements.AliasRoots`;
- `Manifest.MainModule`;
- `Manifest.AssembleManifest` and `Manifest.GenerateManifest`.

The properties the source promises are proved about those functions as
lemmas.

Behaviour of the code worth noting:

- `validate_configuration` never adds a warning. Its only warning is for an
  ID that `validate_dns_format` refuses, and every ID the pattern accepts
  passes that function; a mixed-case ID is only logged
  (`Validation.NoWarningEver`).
- Each custom permission line is stripped, and blank lines are dropped.
- The manifest holds no `sdk-version` key, although "SDK Version" is a
  required field.
- The source location is only checked to be non-empty; whether it exists is
  not checked.
- Build commands depend on the build system as well as the source type: a
  directory source gets them only when the build system is `simple`.
- The runtime picker lists the built-in SDK ids too, because the table's keys
  are not filtered (`Versions.RuntimePickerListsSdks`).

## Model

| member | source | states |
|---|---|---|
| Text.Strip | main.py:834 | the stripped text has no whitespace at either end and is no longer than the input |
| Text.StripEmpty | main.py:834 | stripping gives "" exactly when every character is whitespace |
| Text.Split | main.py:736 | there is at least one piece, no piece holds the separator, and joining the pieces with the separator gives the input back |
| Text.SplitJoin | main.py:1075 | splitting a join of separator-free pieces gives the pieces back |
| Text.Basename | main.py:1063 | the basename is a suffix of the path, holds no '/', and is the whole path or follows a '/' |
| Order.SortedAsc | main.py:747 | `sorted(set)`: same size, same members, strictly ascending |
| Order.SortedDesc | main.py:744 | `sorted(set, reverse=True)`: same size, same members, strictly descending |
| Order.AscendingUnique | main.py:1010 | two strictly ascending listings of the same members are equal, so the sorted order is determined |
| Order.DescendingUnique | main.py:754 | the same for strictly descending listings |
| Form.FieldValue | main.py:830-836 | the value is stripped; it is "" exactly when the field is absent, blank, or shows its placeholder; otherwise it is the stripped text |
| Form.FormData | main.py:1035 | the data has exactly the form's field keys, each mapped to its field value |
| Form.SetField | main.py:1214-1215 | the field holds the new text, every other field is unchanged, and everything else in the form (placeholders, labels, source type, path, hash, check boxes) stays as it was |
| AppId.PatternIsReverseDns | main.py:726 | the scanner accepts a string exactly when it has three or more dot-separated segments, each an ASCII letter followed by letters, digits or '_' |
| AppId.ScanPieces | main.py:726 | from either scanner state, acceptance of the rest of the input is stated in terms of its dot-separated pieces and the segments already seen |
| AppId.StrippedMatchIsReverseDns | main.py:1340 | on stripped text, `re.match` with the App-ID pattern accepts exactly the reverse-DNS identifiers |
| AppId.PatternImpliesDnsFormat | main.py:1351-1355 | every ID the pattern accepts passes `validate_dns_format`, a trailing newline included |
| AppId.ValidateField | main.py:719-730 | the field passes exactly when it has no label, or when it meets the required test and, for appId, the pattern; a label gets a message exactly when one exists; an empty required field gets "This field is required", a malformed App ID the invalid-format message, and a passing labelled field has its label cleared to "" |
| AppId.SanitizeAppName | main.py:1037 | the command name is never empty and holds only `[A-Za-z0-9_-]` characters |
| AppId.KeepNameCharsAppend | main.py:1037 | the `[^a-zA-Z0-9_-]` filter distributes over concatenation, so kept characters stay in order |
| AppId.KeepNameCharsOne | main.py:1037 | one character is kept exactly when it is in `[a-zA-Z0-9_-]` |
| AppId.ReplaceCharAppend | main.py:1037 | the space replacement distributes over concatenation |
| AppId.SanitizeSpace | main.py:1037 | a space becomes '-' and the text on each side is cleaned on its own; when both sides keep a character, the command name is the two command names joined by '-' |
| AppId.SanitizeKeepsCleanName | main.py:1037 | a non-empty name made only of `[A-Za-z0-9_-]` is its own command name |
| AppId.SanitizeIdempotent | main.py:1173 | sanitising a command name again changes nothing |
| AppId.SanitizeFallback | main.py:1037 | "app" is used when the name has no space and no allowed character; otherwise the name is the filtered text |
| AppId.SaneIdPart | main.py:1206-1207 | a sanitised ID part holds only lower-case ASCII letters and digits |
| AppId.LowerAppend | main.py:1206-1207 | `lower()` distributes over concatenation |
| AppId.LowerOne | main.py:1206-1207 | `lower()` of one character is that character's lower-case form |
| AppId.RemoveCharAppend | main.py:1206-1207 | removing spaces distributes over concatenation |
| AppId.RemoveCharOne | main.py:1206-1207 | one character is removed exactly when it is the removed one |
| AppId.KeepLowerAlnumAppend | main.py:1206-1207 | the `[^a-z0-9]+` filter distributes over concatenation |
| AppId.KeepLowerAlnumOne | main.py:1206-1207 | one character is kept exactly when it is a lower-case ASCII letter or digit |
| AppId.SaneIdPartAppend | main.py:1206-1207 | a sanitised part is the sanitised characters of the input, in order |
| AppId.SaneIdPartOne | main.py:1206-1207 | an ASCII capital gives its lower-case letter, a lower-case letter or digit itself, KELVIN SIGN `k`, capital I with dot above `i`, and any other character nothing |
| AppId.GenerateAppId | main.py:1200-1211 | the names-missing warning appears exactly when a name is empty; an ID is produced exactly when both sanitised parts are non-empty; it splits into io, github and the two parts, and passes `validate_dns_format` |
| AppId.GeneratedIdValidWhenLettersLead | main.py:1211 | when both sanitised parts begin with a letter, the generated ID passes the App-ID check |
| AppId.GeneratedIdFailsOnLeadingDigit | main.py:1211 | when a sanitised part begins with a digit, the generated ID fails the App-ID check |
| AppId.RejectedIdIsMarked | main.py:1214-1217 | a rejected ID written into the App ID field, other than the field's placeholder text, gets the invalid-format message from `validate_field` |
| AppId.GeneratedIdCanFailValidation | main.py:1206-1217 | author "1up" and app name "Game" give "io.github.1up.game", which `validate_field` marks invalid right after generating it, whenever that text is not the field's placeholder |
| AppId.GeneratedIdFailsOnBuilderForm | main.py:1206-1217 | on the builder's form, whose App ID entry shows (main.py:249) "e.g., io.github.username.appname", the generated ID "io.github.1up.game" is marked invalid |
| AppId.GenerateCheckedAppId | main.py:1200-1211 | corrected generation: every ID it produces passes the App-ID check and `validate_dns_format`, and it produces one exactly when the original does and both parts begin with a letter |
| Validation.ValidateConfiguration | main.py:1332-1349 | the errors are the missing-field messages in table order, then the reverse-DNS and source messages; there are no warnings; the result is true exactly when there is no error |
| Validation.MissingErrorsStep | main.py:1336-1337 | one more table entry adds its missing-field message exactly when that field reads as empty |
| Validation.NoWarningEver | main.py:1341 | the best-practice warning is never added |
| Validation.MissingErrorsOfRequired | main.py:1335-1337 | the missing-field messages of the required table are, in this order, the messages for appId, appName, summary, runtime, runtimeVersion, sdk and sdkVersion, each present exactly when that field is empty |
| Validation.RequiredFilledSpelled | main.py:1335 | every required field is filled exactly when each of the seven named fields is non-empty |
| Validation.ErrorsEmptyIff | main.py:1343-1345 | validation passes exactly when every required field is filled, the App ID is reverse-DNS, and a source path is set |
| Validation.MissingErrorsCount | main.py:1336-1337 | the number of missing-field messages equals the number of empty required fields, and each message names one field's label |
| Validation.EmptyRequired | main.py:1336-1337 | a required key is listed exactly when it reads as "": every listed key is empty, and every empty key of the table is listed |
| Validation.SourceErrorIff | main.py:1342 | the source-location error is present exactly when the path is empty, and it is then the last error |
| Permissions.SelectedPositions | main.py:1071-1072 | the checked table positions, complete and strictly increasing |
| Permissions.SelectedInTableOrder | main.py:1070-1072 | the k-th added flag is the flag of the k-th checked box in table order |
| Permissions.SelectedMembers | main.py:1072 | a flag is added exactly when some checked box of the table has it |
| Permissions.SelectedDistinct | main.py:1072 | with distinct table flags, no flag is added twice |
| Permissions.PermissionFlagsDistinct | main.py:1069-1073 | the five table flags are distinct, none of them is the IPC flag or the fallback, and those two differ |
| Permissions.StrippedNonBlank | main.py:1075 | the custom lines kept are non-empty and stripped, and there are no more of them than input lines |
| Permissions.SelectedFlagFacts | main.py:1070-1072 | only the five table flags can be added; the X11 and Wayland sockets are added exactly when their boxes are checked |
| Permissions.BuiltinPrefixFlag | main.py:1069-1072 | every flag added before the display test is IPC or one of the five table flags |
| Permissions.MentionIsX11Flag | main.py:1073 | among those six flags, only the X11 socket contains "x11" |
| Permissions.MentionIsWaylandFlag | main.py:1073 | among those six flags, only the Wayland socket contains "wayland" |
| Permissions.X11MentionIsChecked | main.py:1070-1073 | "x11" occurs in the joined flags only when the X11 box is checked |
| Permissions.WaylandMentionIsChecked | main.py:1070-1073 | "wayland" occurs in the joined flags only when the Wayland box is checked |
| Permissions.MentionImpliesDisplay | main.py:1073 | a display mention in the joined flags means a display box is checked |
| Permissions.DisplayImpliesMention | main.py:1073 | a checked display box puts its socket name into the joined flags |
| Permissions.DisplayMentionIff | main.py:1073 | the source's text search for "x11" or "wayland" in the joined flags holds exactly when the X11 or Wayland box is checked |
| Permissions.GenerateFinishArgs | main.py:1068-1076 | the flag list is IPC, the checked flags, the fallback when no display is checked, then the custom lines |
| Permissions.TableFacts | main.py:1069-1073 | the table flags are distinct and are neither the IPC flag nor the fallback, and neither of those is ever added from the table |
| Permissions.BuiltinFlagIff | main.py:1071-1072 | a table flag is among the built-in flags exactly when its box is checked |
| Permissions.BuiltinDistinct | main.py:1069-1073 | no built-in flag occurs twice |
| Permissions.BuiltinArgsShape | main.py:1069-1073 | IPC is first; a table flag is present exactly when its box is checked; the fallback is present exactly when neither display box is checked; no flag occurs twice |
| Permissions.CustomAfterBuiltins | main.py:1074-1075 | the custom lines follow all built-in flags |
| Permissions.StrippedNonBlankAppend | main.py:1075 | the line filter keeps input order: it distributes over concatenation |
| Permissions.StrippedNonBlankDropsBlank | main.py:1075 | a blank line contributes nothing |
| Permissions.BlankLineDropped | main.py:1075 | a single blank line gives no custom flag |
| Permissions.StrippedNonBlankOne | main.py:1075 | one line gives its stripped text, or nothing when that is empty; with the append lemma this pins the filter down |
| Permissions.StrippedNonBlankKeepsLine | main.py:1075 | a padded, non-blank line becomes its stripped text, at its own place between the lines before and after it |
| Permissions.StrippedNonBlankOfClean | main.py:1075 | stripped, non-blank lines pass the filter unchanged |
| Permissions.CustomLinesRoundTrip | main.py:1074-1075 | stripped, non-blank lines written one per line come back unchanged and in order |
| Manifest.MainSource | main.py:1062-1065 | an archive entry exactly for the archive type, with a slash-free suffix of the path and the hash; otherwise a dir entry with the path |
| Manifest.MainModule | main.py:1057-1066 | fails, naming "executable", exactly when a simple directory build lacks that key; otherwise the name and build system are set, build commands exist exactly for a simple directory build, and there is exactly one source |
| Manifest.DependencyModules | main.py:1080-1084 | the parsed modules are taken exactly when the dependencies text is non-empty and parses to a list; otherwise there are none |
| Manifest.ManifestContent | main.py:1078-1085 | fails with the first missing key; otherwise copies the four keys, the command and the finish args; the parsed modules come first and the main module last |
| Manifest.ValidatedData | main.py:1035-1036 | after validation passes, the data holds appId, appName, runtime, runtimeVersion and sdk, as their field values |
| Manifest.AssembledForForm | main.py:1035-1040 | once validation passes, assembling from the form's data never lacks a key; with the form's main module (sanitised name, build system, no build args, install commands exactly for a simple directory build, the form's source) and the form's finish args it gives the manifest described by `ManifestForForm` |
| Manifest.AssembleManifest | main.py:1035-1040 | after validation: a KeyError on "executable" exactly for a simple directory build without it; otherwise the manifest described by `ManifestForForm`, main module included: its name, build system, no build args, install commands exactly for a simple directory build, and its one source |
| Manifest.GenerateManifest | main.py:1030-1040 | rejected, with the validation errors, exactly when there are any; KeyError on "executable" exactly for a valid form with a simple directory build and no such key; otherwise the required fields are filled, a source is set, the App ID is reverse-DNS, and the manifest has the validated values, the sanitised command, the finish args, the dependency modules, and last the main module with the command name, the build system, install commands exactly for a simple directory build, and the form's source |
| Versions.CombinedVersions | main.py:752-754 | the union of installed and built-in versions, each once, strictly descending; ["23.08"] when the union is empty |
| Versions.CombinedVersionsUnique | main.py:754 | any strictly descending listing of the known versions is the one the picker shows |
| Versions.GnomeVersionsWithNothingInstalled | main.py:469-476 | with nothing installed, org.gnome.Platform offers 47, 46, 45, 44 |
| Versions.UnknownRefGetsDefault | main.py:754 | an unknown ref with no installed versions gets the default 23.08 |
| Versions.AvailableRuntimes | main.py:746-747 | the installed runtime ids and all table ids, each once, ascending |
| Versions.AvailableSdks | main.py:749-750 | the installed SDK ids and the table's `.Sdk` ids, each once, ascending |
| Versions.RuntimePickerListsSdks | main.py:747 | the runtime list includes the built-in SDK id org.gnome.Sdk, while the SDK list leaves out org.gnome.Platform |
| Versions.Classify | main.py:738-741 | a ref is an SDK exactly when it ends in `.Sdk`, and a runtime exactly when it ends in `.Platform` |
| Versions.ParsedCount | main.py:736-737 | the scan gets through a prefix of two-column lines and stops at the first line that is not two-column |
| Versions.Record | main.py:739-741 | `setdefault(ref, set()).add(branch)`: the ref gains the branch, the keys gain the ref, and every other ref is unchanged |
| Versions.AddLineCases | main.py:738-741 | on a two-column line, an SDK ref is recorded in the SDK map, and a ref that is not an SDK but ends in `.Platform` in the runtime map |
| Versions.BranchesKind | main.py:738-741 | only refs of the requested kind are recorded |
| Versions.AddLineMember | main.py:739-741 | one step records a pair exactly when it was recorded already or the line names it |
| Versions.NamedInSnoc | main.py:736-741 | a pair is named by the lines exactly when it is named by all but the last line or by the last |
| Versions.BranchesMember | main.py:736-741 | a branch is recorded for a ref exactly when some scanned line names that ref and branch |
| Versions.Listed | main.py:744 | the same refs, each with its branches once, strictly descending |
| Versions.DetectInstalledRefs | main.py:732-744 | empty maps when the command fails; otherwise the listed runtime and SDK branches of the lines scanned before the first malformed one |
| Versions.EmptyOutputFindsNothing | main.py:736-737 | blank output finds no refs |
| Versions.StopsAtMalformedLine | main.py:737 | no line after the first malformed one is looked at |
| Requirements.Root | main.py:1002 | the root name is a dot-free prefix of the name: either the whole name or followed by a dot |
| Requirements.AliasRoots | main.py:1002 | the roots gathered from one `import` are the top-level packages of its aliases |
| Requirements.CollectImports | main.py:991-1006 | the gathered names are `ImportsOf` the files: with `ImportsComeFromPythonFiles` and `ImportsOfCovers`, exactly the roots of the imports in the parsed `.py` files |
| Requirements.ImportsComeFromPythonFiles | main.py:995-1004 | a gathered name holds no dot and is the root of an import in some parsed `.py` file |
| Requirements.ImportsOfCovers | main.py:995-1004 | every import root of a parsed `.py` file is among the gathered names |
| Requirements.NodesImportsCovers | main.py:1000-1004 | every root a node imports is among the roots gathered from the file's nodes |
| Requirements.NodesHaveNoDot | main.py:1002-1004 | no name gathered from the nodes holds a dot |
| Requirements.PackageLines | main.py:943 | the kept lines are stripped, non-blank, not comments, and no more than the input lines |
| Requirements.PackageLinesOfClean | main.py:943 | package lines pass the filter unchanged |
| Requirements.PackageLinesAppend | main.py:943 | the filter keeps input order: it distributes over concatenation |
| Requirements.DropsCommentLine | main.py:943 | a `#` comment line contributes nothing, wherever it is |
| Requirements.CommentLineDropped | main.py:943 | a single `#` comment line gives no package line |
| Requirements.PackageLinesOne | main.py:943 | one line gives its stripped text when that is neither blank nor a comment, and nothing otherwise; with the append lemma this pins the filter down |
| Requirements.DropsBlankLine | main.py:943 | a blank or whitespace-only line contributes nothing, wherever it is |
| Requirements.KeepsPackageLine | main.py:943 | a padded package line becomes its stripped text, at its own place between the lines before and after it |
| Requirements.RequirementsOfJoined | main.py:1011 | package names written one per line are read back unchanged and in order |
| Requirements.RequirementsRoundTrip | main.py:1010-1011 | reading back the written file gives exactly the non-standard imports, strictly ascending |
| Requirements.InstallCommandNamesEveryPackage | main.py:950 | the install command starts with the pip prefix and names every package |
| Requirements.DependencyModule | main.py:943-964 | no module exactly when there are no package lines; otherwise the python-dependencies module with network access, one install command over the package lines, and the script source |
| Requirements.GeneratedRequirementsModule | main.py:1010-1011 | a written file gives no module exactly when every import is standard; otherwise a single install of the rest, sorted |

## Left out

- Widgets, dialogs, styles, focus handling, the status bar and the progress
  bar are tkinter GUI state. Dialog answers become parameters, such as
  `proceed` for the "Continue anyway?" question.
- Placeholders are kept by field key; the source keys them by widget.
- `subprocess`, threads and the output queue are process I/O and concurrency.
  The `flatpak list` output is a parameter (`None` when the command fails).
- `os.walk` and file reading are file-system I/O. The walked files are a
  sequence of `SourceFile`.
- `ast.parse` and `ast.walk` are a foreign library. Each parsed file is a
  sequence of `ImportNode`; a file that fails to parse is `None`, and it
  contributes nothing, as in the source.
- `sys.stdlib_module_names` is a parameter (`stdlib`).
- `yaml.dump` and `yaml.safe_load` are a foreign library. The manifest is a
  datatype, and the parse of the dependencies text is the parameter
  `DependencyParse`. The step from the YAML of
  `Requirements.DependencyModule` to the list `yaml.safe_load` gives back is
  therefore not modelled. The "PyYAML not installed" text output is left
  out too.
- Writing the manifest, the desktop file, build.sh and the README, and
  copying the icon and archive, are file writes.
- The launcher text (`Manifest.ExecCall`, inside `Manifest.InstallCommands`)
  is modelled as the source builds it, but no property is proved about its
  contents.
- `calculate_sha256` wraps `hashlib`; the hash is an opaque string.
- Also left out:
  - `format_file_size`, because it uses floating point;
  - the platform and executable detection;
  - `on_runtime_selected` and `on_sdk_selected`;
  - SDK installation;
  - saving and loading configurations.
  These are GUI or platform plumbing outside the form-to-manifest layer.
- The `islower()` test of `validate_dns_format` only writes a log line. It
  does not affect the result, so it is not modelled.
- The host, usb and pulseaudio check boxes exist in the permissions tab, but
  `_generate_finish_args` never reads them, so they never reach the flags.
- `Manifest.MainModule` follows the source's two readings of the build system:
  - an absent `buildSystem` entry is written as `simple` in the module;
  - but then no build commands are generated.
- `Requirements.Requirements` splits the text at '\n' only. Python's
  universal-newline reading also ends a line at a bare '\r'; files with bare
  '\r' line ends are not modelled. For '\r\n' the result is the same, because
  stripping removes the '\r'.
- `AppId.LowerChar`: models `str.lower()` only as far as the `[^a-z0-9]`
  filter that follows it can tell. The model changes ASCII capitals, KELVIN
  SIGN and LATIN CAPITAL LETTER I WITH DOT ABOVE. Other case mappings leave
  no ASCII letter or digit, so the filter removes them either way.
- `Manifest.GenerateManifest` joins `generate_files` and
  `export_manifest_only`. The first catches the KeyError and shows an error
  dialog; the second lets it propagate. Both appear here as `KeyMissing`.

## Findings

| source | as written | input that shows it | evidently intended | confidence | as-written member | corrected member |
|---|---|---|---|---|---|---|
| main.py:1206-1211 | `generate_app_id` keeps a leading digit in the sanitised author or app name, so the generated ID can fail the App-ID check that `validate_field` runs straight after it | author "1up", app name "Game" gives "io.github.1up.game", which is refused as "Invalid App ID format" | every generated ID passes the App-ID check; a part with a leading digit is refused with a warning instead | not executed | AppId.GeneratedIdFailsOnBuilderForm | AppId.GenerateCheckedAppId |
