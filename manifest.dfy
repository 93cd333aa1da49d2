/**
  The manifest data `generate_files` and `export_manifest_only` assemble:
  the application's own module (`_generate_main_module`), the manifest
  record (`_generate_manifest_content`, before YAML serialisation), and the
  composition of validation, app-name sanitising, finish args and modules.
 */
module Manifest {
  import opened Wrappers
  import opened Text
  import opened Form
  import opened AppId
  import opened Validation
  import opened Permissions

  datatype Source =
    | ArchiveSource(path: string, sha256: string)
    | DirSource(path: string)
    | ScriptSource(commands: seq<string>)

  /** A manifest module; `buildArgs` is the `build-options: build-args` entry. */
  datatype Module = Module(
    name: string,
    buildsystem: string,
    buildArgs: Option<seq<string>>,
    buildCommands: Option<seq<string>>,
    sources: seq<Source>)

  /** The manifest keys the builder writes, in its order; there is no `sdk-version` key. */
  datatype AppManifest = AppManifest(
    appId: string,
    runtime: string,
    runtimeVersion: string,
    sdk: string,
    command: string,
    finishArgs: seq<string>,
    modules: seq<Module>)

  /** The launcher's command: Python scripts go through `python3`, anything else is executed directly. */
  function ExecCall(appName: string, executable: string): string
  {
    if EndsWith(executable, ".py") then "python3 /app/share/" + appName + "/" + executable
    else "exec /app/share/" + appName + "/" + executable
  }

  /** The build commands of a directory source built with the simple build system. */
  function InstallCommands(appName: string, executable: string): seq<string>
  {
    [ "install -d /app/share/" + appName,
      "cp -a ./* /app/share/" + appName + "/",
      "install -Dm755 /dev/stdin /app/bin/" + appName + " <<'EOF'\n#!/bin/sh\n" + ExecCall(appName, executable) + " \"$@\"\nEOF" ]
  }

  /** `data.get('buildSystem') == 'simple' and source_type == 'directory'`. */
  predicate BuildsInPlace(data: map<string, string>, sourceType: string)
  {
    "buildSystem" in data && data["buildSystem"] == "simple" && sourceType == "directory"
  }

  /** `data.get('buildSystem', 'simple')`. */
  function BuildSystem(data: map<string, string>): string
  {
    if "buildSystem" in data then data["buildSystem"] else "simple"
  }

  /** The one source of the application's module. */
  function MainSource(sourceType: string, sourcePath: string, sha256: string): (r: Source)
    ensures r.ArchiveSource? <==> sourceType == "archive"
    ensures r.ArchiveSource? ==> '/' !in r.path && EndsWith(sourcePath, r.path) && r.sha256 == sha256
    ensures r.DirSource? ==> r.path == sourcePath
  {
    if sourceType == "archive" then ArchiveSource(Basename(sourcePath), sha256) else DirSource(sourcePath)
  }

  /**
    `_generate_main_module`. A missing "executable" entry is the `KeyError`
    the source raises when it needs one; the failure names the key.
   */
  method MainModule(data: map<string, string>, appName: string, sourceType: string, sourcePath: string, sha256: string)
    returns (r: Result<Module, string>)
    ensures r.Failure? <==> BuildsInPlace(data, sourceType) && "executable" !in data
    ensures r.Failure? ==> r.error == "executable"
    ensures r.Success? ==>
      && r.value.name == appName
      && r.value.buildsystem == BuildSystem(data)
      && r.value.buildArgs.None?
      && (r.value.buildCommands.Some? <==> BuildsInPlace(data, sourceType))
      && (r.value.buildCommands.Some? ==> r.value.buildCommands.value == InstallCommands(appName, data["executable"]))
      && r.value.sources == [MainSource(sourceType, sourcePath, sha256)]
  {
    var built := Module(appName, BuildSystem(data), None, None, []);
    if "buildSystem" in data && data["buildSystem"] == "simple" && sourceType == "directory" {
      if "executable" !in data {
        return Failure("executable");
      }
      built := built.(buildCommands := Some(InstallCommands(appName, data["executable"])));
    }
    if sourceType == "archive" {
      built := built.(sources := built.sources + [ArchiveSource(Basename(sourcePath), sha256)]);
    } else {
      built := built.(sources := built.sources + [DirSource(sourcePath)]);
    }
    r := Success(built);
  }

  /** What `yaml.safe_load` made of the dependencies text. */
  datatype DependencyParse = Unparsable | NotAList | ModuleList(modules: seq<Module>)

  /** The dependency modules taken into the manifest: only a non-empty text that parses to a list. */
  function DependencyModules(depsText: string, parse: DependencyParse): (r: seq<Module>)
    ensures r != [] ==> depsText != "" && parse.ModuleList? && r == parse.modules
    ensures depsText != "" && parse.ModuleList? ==> r == parse.modules
  {
    if depsText != "" && parse.ModuleList? then parse.modules else []
  }

  /** The first of the keys `_generate_manifest_content` reads that the data lacks. */
  function FirstMissingKey(data: map<string, string>): Option<string>
  {
    if "appId" !in data then Some("appId")
    else if "runtime" !in data then Some("runtime")
    else if "runtimeVersion" !in data then Some("runtimeVersion")
    else if "sdk" !in data then Some("sdk")
    else None
  }

  /**
    `_generate_manifest_content` up to serialisation: the manifest record,
    with the parsed dependency modules first and the application's module
    always last.
   */
  function ManifestContent(data: map<string, string>, appName: string, finishArgs: seq<string>, main: Module,
                           depsText: string, parse: DependencyParse): (r: Result<AppManifest, string>)
    ensures r.Failure? <==> !("appId" in data && "runtime" in data && "runtimeVersion" in data && "sdk" in data)
    ensures r.Failure? ==> Some(r.error) == FirstMissingKey(data)
    ensures r.Success? ==>
      var m := r.value;
      && m.appId == data["appId"] && m.runtime == data["runtime"]
      && m.runtimeVersion == data["runtimeVersion"] && m.sdk == data["sdk"]
      && m.command == appName && m.finishArgs == finishArgs
      && |m.modules| >= 1 && m.modules[|m.modules| - 1] == main
      && m.modules[..|m.modules| - 1] == DependencyModules(depsText, parse)
  {
    match FirstMissingKey(data)
    case Some(key) => Failure(key)
    case None =>
      var modules := DependencyModules(depsText, parse);
      Success(AppManifest(data["appId"], data["runtime"], data["runtimeVersion"], data["sdk"], appName, finishArgs,
        modules + [main]))
  }

  datatype Generation =
    | Rejected(errors: seq<string>)
    | KeyMissing(key: string)
    | Assembled(manifest: AppManifest)

  /** After a successful validation the form data holds every key the manifest reads. */
  lemma ValidatedData(form: FormState)
    requires ConfigurationErrors(form) == []
    ensures RequiredFilled(form) && ReverseDns(FieldValue(form, "appId")) && form.sourcePath != ""
    ensures var data := FormData(form);
      && "appId" in data && "appName" in data && "runtime" in data && "runtimeVersion" in data && "sdk" in data
      && data["appId"] == FieldValue(form, "appId") && data["appName"] == FieldValue(form, "appName")
      && data["runtime"] == FieldValue(form, "runtime") && data["runtimeVersion"] == FieldValue(form, "runtimeVersion")
      && data["sdk"] == FieldValue(form, "sdk")
  {
    ErrorsEmptyIff(form);
    RequiredFilledSpelled(form);
  }

  /**
    The manifest the builder writes for a form: the validated values, the
    sanitised app name as the command, the finish args of the check boxes,
    the parsed dependency modules, and the application's module last.
   */
  predicate ManifestForForm(m: AppManifest, form: FormState, parse: DependencyParse)
  {
    && m.appId == FieldValue(form, "appId")
    && m.runtime == FieldValue(form, "runtime") && m.runtimeVersion == FieldValue(form, "runtimeVersion")
    && m.sdk == FieldValue(form, "sdk")
    && m.command == SanitizeAppName(FieldValue(form, "appName"))
    && m.finishArgs == FinishArgsOf(form.perms, FieldValue(form, "customPerms"))
    && |m.modules| >= 1
    && m.modules[..|m.modules| - 1] == DependencyModules(FieldValue(form, "dependencies"), parse)
    && MainModuleForForm(m.modules[|m.modules| - 1], form, m.command)
  }

  /** The application's module for a form: its name, build system, build commands and one source. */
  predicate MainModuleForForm(main: Module, form: FormState, appName: string)
  {
    && main.name == appName
    && main.buildsystem == BuildSystem(FormData(form))
    && main.buildArgs.None?
    && (main.buildCommands.Some? <==> BuildsInPlace(FormData(form), form.sourceType))
    && (main.buildCommands.Some? ==> main.buildCommands.value == InstallCommands(appName, FieldValue(form, "executable")))
    && main.sources == [MainSource(form.sourceType, form.sourcePath, form.sha256)]
  }

  /**
    Once validation has passed, assembling from the form's data never lacks a
    key, and with the form's main module and finish args it gives the
    manifest for the form.
   */
  lemma AssembledForForm(form: FormState, parse: DependencyParse, main: Module, finishArgs: seq<string>)
    requires ConfigurationErrors(form) == []
    ensures var r := ManifestContent(FormData(form), main.name, finishArgs, main, FieldValue(form, "dependencies"), parse);
      && r.Success?
      && (MainModuleForForm(main, form, SanitizeAppName(FieldValue(form, "appName"))) &&
          finishArgs == FinishArgsOf(form.perms, FieldValue(form, "customPerms")) ==>
            ManifestForForm(r.value, form, parse))
  {
    ValidatedData(form);
  }

  /**
    What `generate_files` and `export_manifest_only` do once validation has
    passed: read the form, sanitise the app name, build the main module and
    the finish args, and assemble the manifest. `parse` is what the YAML
    parser makes of the dependencies field.
   */
  method AssembleManifest(form: FormState, parse: DependencyParse) returns (g: Generation)
    requires ConfigurationErrors(form) == []
    ensures !g.Rejected?
    ensures g.KeyMissing? <==> BuildsInPlace(FormData(form), form.sourceType) && "executable" !in form.fields
    ensures g.KeyMissing? ==> g.key == "executable"
    ensures g.Assembled? ==> ManifestForForm(g.manifest, form, parse)
  {
    ValidatedData(form);
    var data := FormData(form);
    var appName := SanitizeAppName(data["appName"]);
    assert "executable" in data <==> "executable" in form.fields;
    var main := MainModule(data, appName, form.sourceType, form.sourcePath, form.sha256);
    if main.Failure? {
      return KeyMissing(main.error);
    }
    assert main.value.buildCommands.Some? ==> data["executable"] == FieldValue(form, "executable");
    var finishArgs := GenerateFinishArgs(form);
    AssembledForForm(form, parse, main.value, finishArgs);
    var content := ManifestContent(data, appName, finishArgs, main.value, FieldValue(form, "dependencies"), parse);
    g := Assembled(content.value);
  }

  /**
    The data path of `generate_files` and `export_manifest_only`: validate,
    then assemble. `proceed` is the answer to the warnings question.
   */
  method GenerateManifest(form: FormState, proceed: bool, parse: DependencyParse) returns (g: Generation)
    ensures g.Rejected? <==> ConfigurationErrors(form) != []
    ensures g.Rejected? ==> g.errors == ConfigurationErrors(form)
    ensures g.KeyMissing? <==>
      ConfigurationErrors(form) == [] && BuildsInPlace(FormData(form), form.sourceType) && "executable" !in form.fields
    ensures g.KeyMissing? ==> g.key == "executable"
    ensures g.Assembled? ==>
      && RequiredFilled(form) && form.sourcePath != "" && ReverseDns(g.manifest.appId)
      && ManifestForForm(g.manifest, form, parse)
  {
    var ok, errors, warnings := ValidateConfiguration(form, proceed);
    if !ok {
      return Rejected(errors);
    }
    ErrorsEmptyIff(form);
    g := AssembleManifest(form, parse);
  }
}
