/**
  `validate_configuration`: the required fields checked in a fixed order,
  then the App-ID syntax, then the source location, giving the error and
  warning lists that decide whether generation may go on.
 */
module Validation {
  import opened Text
  import opened Form
  import opened AppId

  /** The required fields and their labels, in the order of the source's dictionary. */
  const RequiredFields: seq<(string, string)> := [
    ("appId", "App ID"), ("appName", "App Name"), ("summary", "Summary"), ("runtime", "Runtime"),
    ("runtimeVersion", "Runtime Version"), ("sdk", "SDK"), ("sdkVersion", "SDK Version")]

  function MissingMessage(caption: string): string { "Missing required field: " + caption }

  const ReverseDnsMessage := "App ID must use reverse DNS notation (e.g., io.github.username.app)"
  const BestPracticeMessage := "App ID format may not follow all common best practices (e.g., should be all lowercase)."
  const SourceMessage := "Source location is required"

  /** The error for one required field: one message if it is empty, none otherwise. */
  function Missing(form: FormState, key: string, caption: string): seq<string>
  {
    if FieldValue(form, key) == "" then [MissingMessage(caption)] else []
  }

  /** The messages the loop over `req` has produced once it has gone through all of `req`. */
  function MissingErrors(form: FormState, req: seq<(string, string)>): seq<string>
  {
    if req == [] then []
    else MissingErrors(form, req[..|req| - 1]) + Missing(form, req[|req| - 1].0, req[|req| - 1].1)
  }

  function AppIdErrors(form: FormState): seq<string>
  {
    var appId := FieldValue(form, "appId");
    if appId != "" && !AppIdPatternMatch(appId) then [ReverseDnsMessage] else []
  }

  function SourceErrors(form: FormState): seq<string>
  {
    if form.sourcePath == "" then [SourceMessage] else []
  }

  /**
    The errors `validate_configuration` reports, in its order: one
    "Missing required field" message per empty required field, the
    reverse-DNS message for a non-empty App ID the pattern rejects, and the
    source-location message for an empty source path.
   */
  function ConfigurationErrors(form: FormState): seq<string>
  {
    MissingErrors(form, RequiredFields) + AppIdErrors(form) + SourceErrors(form)
  }

  lemma MissingErrorsStep(form: FormState, req: seq<(string, string)>, i: nat)
    requires i < |req|
    ensures MissingErrors(form, req[..i + 1]) == MissingErrors(form, req[..i]) + Missing(form, req[i].0, req[i].1)
  {
    assert req[..i + 1][..i] == req[..i];
  }

  /** The warnings it may add: the best-practice message for an App ID that `validate_dns_format` refuses. */
  function ConfigurationWarnings(form: FormState): seq<string>
  {
    var appId := FieldValue(form, "appId");
    if appId != "" && AppIdPatternMatch(appId) && !ValidateDnsFormat(appId) then [BestPracticeMessage] else []
  }

  /** The warning list is always empty: an App ID the pattern accepts always passes `validate_dns_format`. */
  lemma NoWarningEver(form: FormState)
    ensures ConfigurationWarnings(form) == []
  {
    PatternImpliesDnsFormat(FieldValue(form, "appId"));
  }

  /**
    `validate_configuration`. `proceed` is the answer the user would give to
    the "Continue anyway?" question asked when there are warnings only.
   */
  method ValidateConfiguration(form: FormState, proceed: bool) returns (ok: bool, errors: seq<string>, warnings: seq<string>)
    ensures errors == ConfigurationErrors(form)
    ensures warnings == ConfigurationWarnings(form) && warnings == []
    ensures ok <==> errors == [] && (warnings == [] || proceed)
    ensures ok <==> errors == []
  {
    errors, warnings := [], [];
    var i := 0;
    while i < |RequiredFields|
      invariant 0 <= i <= |RequiredFields|
      invariant errors == MissingErrors(form, RequiredFields[..i])
    {
      var (field, caption) := RequiredFields[i];
      MissingErrorsStep(form, RequiredFields, i);
      if FieldValue(form, field) == "" {
        errors := errors + [MissingMessage(caption)];
      }
      i := i + 1;
    }
    assert RequiredFields[..i] == RequiredFields;
    var appId := FieldValue(form, "appId");
    if appId != "" {
      if !AppIdPatternMatch(appId) {
        errors := errors + [ReverseDnsMessage];
      } else if !ValidateDnsFormat(appId) {
        warnings := warnings + [BestPracticeMessage];
      }
    }
    if form.sourcePath == "" {
      errors := errors + [SourceMessage];
    }
    NoWarningEver(form);
    if errors != [] {
      ok := false;
    } else if warnings != [] {
      ok := proceed;
    } else {
      ok := true;
    }
  }

  /**
    Going through the whole table gives one message per empty field, in the
    order appId, appName, summary, runtime, runtimeVersion, sdk, sdkVersion.
   */
  lemma MissingErrorsOfRequired(form: FormState)
    ensures MissingErrors(form, RequiredFields) ==
      Missing(form, "appId", "App ID") + Missing(form, "appName", "App Name") + Missing(form, "summary", "Summary")
      + Missing(form, "runtime", "Runtime") + Missing(form, "runtimeVersion", "Runtime Version")
      + Missing(form, "sdk", "SDK") + Missing(form, "sdkVersion", "SDK Version")
  {
    var r := RequiredFields;
    assert r[..1][..0] == [] && r[..2][..1] == r[..1] && r[..3][..2] == r[..2] && r[..4][..3] == r[..3];
    assert r[..5][..4] == r[..4] && r[..6][..5] == r[..5] && r[..7][..6] == r[..6] && r[..7] == r;
    assert MissingErrors(form, r[..1]) == Missing(form, "appId", "App ID");
    assert MissingErrors(form, r[..2]) == MissingErrors(form, r[..1]) + Missing(form, "appName", "App Name");
    assert MissingErrors(form, r[..3]) == MissingErrors(form, r[..2]) + Missing(form, "summary", "Summary");
    assert MissingErrors(form, r[..4]) == MissingErrors(form, r[..3]) + Missing(form, "runtime", "Runtime");
    assert MissingErrors(form, r[..5]) == MissingErrors(form, r[..4]) + Missing(form, "runtimeVersion", "Runtime Version");
    assert MissingErrors(form, r[..6]) == MissingErrors(form, r[..5]) + Missing(form, "sdk", "SDK");
    assert MissingErrors(form, r) == MissingErrors(form, r[..6]) + Missing(form, "sdkVersion", "SDK Version");
  }

  /** Every field of the required table has a non-empty value. */
  predicate RequiredFilled(form: FormState)
  {
    forall i :: 0 <= i < |RequiredFields| ==> FieldValue(form, RequiredFields[i].0) != ""
  }

  lemma RequiredFilledSpelled(form: FormState)
    ensures RequiredFilled(form) <==>
      && FieldValue(form, "appId") != "" && FieldValue(form, "appName") != "" && FieldValue(form, "summary") != ""
      && FieldValue(form, "runtime") != "" && FieldValue(form, "runtimeVersion") != ""
      && FieldValue(form, "sdk") != "" && FieldValue(form, "sdkVersion") != ""
  {
    var r := RequiredFields;
    assert r[0].0 == "appId" && r[1].0 == "appName" && r[2].0 == "summary" && r[3].0 == "runtime";
    assert r[4].0 == "runtimeVersion" && r[5].0 == "sdk" && r[6].0 == "sdkVersion";
    if !RequiredFilled(form) {
      var i :| 0 <= i < |r| && FieldValue(form, r[i].0) == "";
      assert i == 0 || i == 1 || i == 2 || i == 3 || i == 4 || i == 5 || i == 6;
    }
  }

  /**
    Validation passes exactly when every required field is filled in, the App
    ID has at least three letter-led segments, and a source path is set.
   */
  lemma ErrorsEmptyIff(form: FormState)
    ensures ConfigurationErrors(form) == [] <==>
      RequiredFilled(form) && ReverseDns(FieldValue(form, "appId")) && form.sourcePath != ""
  {
    var appId := FieldValue(form, "appId");
    StrippedMatchIsReverseDns(appId);
    assert ReverseDns(appId) ==> appId != "" by {
      if appId == "" { assert Split(appId, '.') == [""]; }
    }
    assert AppIdErrors(form) == [] && appId != "" <==> ReverseDns(appId);
    MissingErrorsOfRequired(form);
    RequiredFilledSpelled(form);
  }

  /** The number of "Missing required field" messages is the number of empty required fields. */
  lemma {:induction false} MissingErrorsCount(form: FormState, req: seq<(string, string)>)
    ensures |MissingErrors(form, req)| == |EmptyRequired(form, req)|
    ensures forall m :: m in MissingErrors(form, req) ==> exists i :: 0 <= i < |req| && m == MissingMessage(req[i].1)
  {
    if req != [] {
      MissingErrorsCount(form, req[..|req| - 1]);
      var m' := MissingErrors(form, req[..|req| - 1]);
      forall m | m in MissingErrors(form, req) ensures exists i :: 0 <= i < |req| && m == MissingMessage(req[i].1) {
        if m in m' {
          var i :| 0 <= i < |req[..|req| - 1]| && m == MissingMessage(req[..|req| - 1][i].1);
          assert m == MissingMessage(req[i].1);
        } else {
          assert m == MissingMessage(req[|req| - 1].1);
        }
      }
    }
  }

  /** The keys of the empty fields of `req`, in table order. */
  function EmptyRequired(form: FormState, req: seq<(string, string)>): (r: seq<string>)
    ensures forall k :: k in r ==> FieldValue(form, k) == ""
    ensures forall i :: 0 <= i < |req| && FieldValue(form, req[i].0) == "" ==> req[i].0 in r
  {
    if req == [] then []
    else
      var n := |req| - 1;
      assert forall i :: 0 <= i < n ==> req[..n][i] == req[i];
      EmptyRequired(form, req[..n]) + (if FieldValue(form, req[n].0) == "" then [req[n].0] else [])
  }

  /** The source-location error is reported exactly when no source path is set, and it is then the last error. */
  lemma SourceErrorIff(form: FormState)
    ensures SourceMessage in ConfigurationErrors(form) <==> form.sourcePath == ""
    ensures form.sourcePath == "" ==> ConfigurationErrors(form)[|ConfigurationErrors(form)| - 1] == SourceMessage
  {
    var m := MissingErrors(form, RequiredFields);
    NoSourceMessageMissing(form, RequiredFields);
    assert SourceMessage !in AppIdErrors(form) by {
      assert |ReverseDnsMessage| != |SourceMessage|;
    }
    assert ConfigurationErrors(form) == (m + AppIdErrors(form)) + SourceErrors(form);
    assert SourceMessage !in m + AppIdErrors(form);
  }

  lemma {:induction false} NoSourceMessageMissing(form: FormState, req: seq<(string, string)>)
    ensures SourceMessage !in MissingErrors(form, req)
  {
    if req != [] {
      NoSourceMessageMissing(form, req[..|req| - 1]);
      var caption := req[|req| - 1].1;
      assert MissingMessage(caption)[0] == 'M';
    }
  }
}
