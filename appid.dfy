/**
  The application identifier: the App-ID pattern
  `^[a-zA-Z][a-zA-Z0-9_]*(\.[a-zA-Z][a-zA-Z0-9_]*){2,}$` as a hand-written
  matcher, `validate_dns_format`, `validate_field`, the sanitising of the
  application name into a command name, and `generate_app_id`.
 */
module AppId {
  import opened Wrappers
  import opened Text
  import opened Form

  predicate IsAsciiLetter(c: char) { 'a' <= c <= 'z' || 'A' <= c <= 'Z' }

  predicate IsAsciiDigit(c: char) { '0' <= c <= '9' }

  /** The class `[a-zA-Z0-9_]`. */
  predicate IsWordChar(c: char) { IsAsciiLetter(c) || IsAsciiDigit(c) || c == '_' }

  predicate AllWordChars(p: string) { forall k :: 0 <= k < |p| ==> IsWordChar(p[k]) }

  /** One segment of the pattern, `[a-zA-Z][a-zA-Z0-9_]*`. */
  predicate IsSegment(p: string)
  {
    |p| >= 1 && IsAsciiLetter(p[0]) && forall k :: 1 <= k < |p| ==> IsWordChar(p[k])
  }

  /** The reference reading of the pattern: three or more dot-separated segments. */
  predicate ReverseDns(s: string)
  {
    var parts := Split(s, '.');
    |parts| >= 3 && forall k :: 0 <= k < |parts| ==> IsSegment(parts[k])
  }

  /**
    The pattern as a left-to-right scanner. `inSegment` says whether the
    current segment has its leading letter already; `dots` counts the dots
    passed. The input is accepted at its end inside a segment after two dots
    or more.
   */
  predicate Scan(s: string, inSegment: bool, dots: nat)
    decreases |s|
  {
    if s == [] then inSegment && dots >= 2
    else if !inSegment then IsAsciiLetter(s[0]) && Scan(s[1..], true, dots)
    else if IsWordChar(s[0]) then Scan(s[1..], true, dots)
    else if s[0] == '.' then Scan(s[1..], false, dots + 1)
    else false
  }

  /** The pattern matched against the whole string. */
  predicate PatternFullMatch(s: string)
  {
    Scan(s, false, 0)
  }

  /** `re.match(pattern, s)`: the final `$` also matches just before a trailing newline. */
  predicate AppIdPatternMatch(s: string)
  {
    PatternFullMatch(s) || (|s| > 0 && s[|s| - 1] == '\n' && PatternFullMatch(s[..|s| - 1]))
  }

  lemma SegmentCons(c: char, q: string)
    ensures IsSegment([c] + q) <==> IsAsciiLetter(c) && AllWordChars(q)
    ensures AllWordChars([c] + q) <==> IsWordChar(c) && AllWordChars(q)
  {
    var p := [c] + q;
    assert forall k :: 0 <= k < |q| ==> p[k + 1] == q[k];
    if AllWordChars(q) {
      forall k | 1 <= k < |p| ensures IsWordChar(p[k]) { assert p[k] == q[k - 1]; }
    }
  }

  /** What the scanner accepts from either state, in terms of the dot-separated pieces of the rest of the input. */
  predicate ScanMatchesPieces(s: string, d: nat)
  {
    var ps := Split(s, '.');
    && (Scan(s, true, d) <==>
         AllWordChars(ps[0]) && (forall j :: 1 <= j < |ps| ==> IsSegment(ps[j])) && d + |ps| - 1 >= 2)
    && (Scan(s, false, d) <==>
         IsSegment(ps[0]) && (forall j :: 1 <= j < |ps| ==> IsSegment(ps[j])) && d + |ps| - 1 >= 2)
  }

  lemma {:induction false} ScanPieces(s: string, d: nat)
    ensures ScanMatchesPieces(s, d)
    decreases |s|, 1
  {
    if s != [] {
      assert s == [s[0]] + s[1..];
      if s[0] == '.' {
        ScanAfterDot(s[1..], d);
      } else {
        ScanAfterChar(s[0], s[1..], d);
      }
    }
  }

  /** A dot closes the current segment and starts a new one. */
  lemma {:induction false} ScanAfterDot(t: string, d: nat)
    ensures ScanMatchesPieces(['.'] + t, d)
    decreases |t| + 1, 0
  {
    var s := ['.'] + t;
    assert s[1..] == t;
    var ps, qs := Split(s, '.'), Split(t, '.');
    ScanPieces(t, d + 1);
    assert ps == [""] + qs;
    assert forall j :: 1 <= j < |ps| ==> ps[j] == qs[j - 1];
  }

  /** Any other character extends the current segment. */
  lemma {:induction false} ScanAfterChar(c: char, t: string, d: nat)
    requires c != '.'
    ensures ScanMatchesPieces([c] + t, d)
    decreases |t| + 1, 0
  {
    var s := [c] + t;
    assert s[1..] == t;
    var ps, qs := Split(s, '.'), Split(t, '.');
    ScanPieces(t, d);
    assert ps == [[c] + qs[0]] + qs[1..];
    SegmentCons(c, qs[0]);
    assert forall j :: 1 <= j < |ps| ==> ps[j] == qs[j];
  }

  /** The scanner accepts exactly the reverse-DNS identifiers. */
  lemma PatternIsReverseDns(s: string)
    ensures PatternFullMatch(s) <==> ReverseDns(s)
  {
    ScanPieces(s, 0);
  }

  /** On stripped text (all the form yields), `re.match` accepts exactly the reverse-DNS identifiers. */
  lemma StrippedMatchIsReverseDns(s: string)
    requires Stripped(s)
    ensures AppIdPatternMatch(s) <==> ReverseDns(s)
  {
    PatternIsReverseDns(s);
  }

  /**
    `validate_dns_format`: at least three dot-separated parts, none empty.
    Its `islower()` test only writes a log line and does not affect the result.
   */
  predicate ValidateDnsFormat(appId: string)
  {
    var parts := Split(appId, '.');
    |parts| >= 3 && forall k :: 0 <= k < |parts| ==> |parts[k]| >= 1
  }

  /** Every identifier the pattern accepts passes `validate_dns_format`. */
  lemma PatternImpliesDnsFormat(s: string)
    ensures AppIdPatternMatch(s) ==> ValidateDnsFormat(s)
  {
    if PatternFullMatch(s) {
      PatternIsReverseDns(s);
    } else if AppIdPatternMatch(s) {
      var t := s[..|s| - 1];
      PatternIsReverseDns(t);
      assert s == t + ['\n'];
      SplitSnoc(t, '\n', '.');
    }
  }

  const RequiredMessage := "This field is required"
  const InvalidFormatMessage := "Invalid App ID format. e.g.: com.example.app"

  /** The outcome of `validate_field`: its result and the new text of the error label, if it has one. */
  datatype FieldCheck = FieldCheck(ok: bool, message: Option<string>)

  /** `validate_field(key, required)`. */
  function ValidateField(form: FormState, key: string, required: bool): (r: FieldCheck)
    ensures r.message.None? <==> key !in form.labels
    ensures var v := FieldValue(form, key);
      r.ok <==> key !in form.labels || ((!required || v != "") && (key != "appId" || v == "" || ReverseDns(v)))
    ensures !r.ok ==> r.message.Some? && r.message.value != ""
    ensures var v := FieldValue(form, key);
      && (key in form.labels && required && v == "" ==> r == FieldCheck(false, Some(RequiredMessage)))
      && (key in form.labels && !(required && v == "") && key == "appId" && v != "" && !ReverseDns(v) ==>
            r == FieldCheck(false, Some(InvalidFormatMessage)))
      && (key in form.labels && r.ok ==> r.message == Some(""))
  {
    var value := FieldValue(form, key);
    StrippedMatchIsReverseDns(value);
    if key !in form.labels then FieldCheck(true, None)
    else if required && value == "" then FieldCheck(false, Some(RequiredMessage))
    else if key == "appId" && value != "" && !AppIdPatternMatch(value) then FieldCheck(false, Some(InvalidFormatMessage))
    else FieldCheck(true, Some(""))
  }

  /** The class `[a-zA-Z0-9_-]`. */
  predicate IsNameChar(c: char) { IsWordChar(c) || c == '-' }

  /** `s.replace(a, b)` for single characters. */
  function ReplaceChar(s: string, a: char, b: char): (r: string)
    ensures |r| == |s|
    ensures forall k :: 0 <= k < |s| ==> r[k] == if s[k] == a then b else s[k]
  {
    if s == [] then [] else [if s[0] == a then b else s[0]] + ReplaceChar(s[1..], a, b)
  }

  /** `re.sub(r'[^a-zA-Z0-9_-]', '', s)`. */
  function KeepNameChars(s: string): (r: string)
    ensures |r| <= |s|
    ensures forall k :: 0 <= k < |r| ==> IsNameChar(r[k])
  {
    if s == [] then [] else (if IsNameChar(s[0]) then [s[0]] else []) + KeepNameChars(s[1..])
  }

  /** The filter keeps the allowed characters of each part, in order. */
  lemma {:induction false} KeepNameCharsAppend(a: string, b: string)
    ensures KeepNameChars(a + b) == KeepNameChars(a) + KeepNameChars(b)
  {
    if a == [] {
      assert a + b == b;
    } else {
      var ab := a + b;
      assert ab[0] == a[0] && ab[1..] == a[1..] + b;
      var h: string := if IsNameChar(a[0]) then [a[0]] else [];
      assert KeepNameChars(ab) == h + KeepNameChars((a[1..] + b));
      assert KeepNameChars(a) == h + KeepNameChars(a[1..]);
      KeepNameCharsAppend(a[1..], b);
      assert h + (KeepNameChars(a[1..]) + KeepNameChars(b)) == (h + KeepNameChars(a[1..])) + KeepNameChars(b);
    }
  }

  /** One character is kept exactly when it is in `[a-zA-Z0-9_-]`. */
  lemma KeepNameCharsOne(c: char)
    ensures KeepNameChars([c]) == if IsNameChar(c) then [c] else []
  {
    assert [c][1..] == [];
  }

  lemma ReplaceCharAppend(a: string, b: string, x: char, y: char)
    ensures ReplaceChar(a + b, x, y) == ReplaceChar(a, x, y) + ReplaceChar(b, x, y)
  {
    var ab := a + b;
    var l, ra, rb := ReplaceChar(ab, x, y), ReplaceChar(a, x, y), ReplaceChar(b, x, y);
    var r := ra + rb;
    assert |l| == |r|;
    forall k | 0 <= k < |l| ensures l[k] == r[k] {
      if k < |a| {
        assert ab[k] == a[k] && r[k] == ra[k];
      } else {
        assert ab[k] == b[k - |a|] && r[k] == rb[k - |a|];
      }
    }
  }


  /** `re.sub(r'[^a-zA-Z0-9_-]', '', name.replace(' ', '-'))`: the name before the "app" fallback. */
  function CleanedName(name: string): string
  {
    KeepNameChars(ReplaceChar(name, ' ', '-'))
  }

  /**
    The command name made from the application name:
    `re.sub(r'[^a-zA-Z0-9_-]', '', name.replace(' ', '-')) or "app"`.
   */
  function SanitizeAppName(name: string): (r: string)
    ensures r != ""
    ensures forall k :: 0 <= k < |r| ==> IsNameChar(r[k])
  {
    var cleaned := CleanedName(name);
    if cleaned == "" then "app" else cleaned
  }

  /**
    A space becomes '-' and the parts around it are cleaned on their own, so
    words separated by a space are joined by '-' in the command name.
   */
  lemma SanitizeSpace(a: string, b: string)
    ensures CleanedName(a + " " + b) == CleanedName(a) + KeepNameChars(ReplaceChar(" ", ' ', '-')) + CleanedName(b)
    ensures SanitizeAppName(a + " " + b) == CleanedName(a) + "-" + CleanedName(b)
    ensures CleanedName(a) != "" && CleanedName(b) != "" ==>
      SanitizeAppName(a + " " + b) == SanitizeAppName(a) + "-" + SanitizeAppName(b)
  {
    ReplaceCharAppend(a + " ", b, ' ', '-');
    ReplaceCharAppend(a, " ", ' ', '-');
    var ra, rb := ReplaceChar(a, ' ', '-'), ReplaceChar(b, ' ', '-');
    assert ReplaceChar(" ", ' ', '-') == "-";
    KeepNameCharsAppend(ra + "-", rb);
    KeepNameCharsAppend(ra, "-");
    KeepNameCharsOne('-');
  }

  lemma {:induction false} KeepNameCharsOfNameChars(s: string)
    requires forall k :: 0 <= k < |s| ==> IsNameChar(s[k])
    ensures KeepNameChars(s) == s
  {
    if s != [] {
      KeepNameCharsOfNameChars(s[1..]);
      assert s == [s[0]] + s[1..];
    }
  }

  /** A name made only of `[A-Za-z0-9_-]` characters is its own command name. */
  lemma SanitizeKeepsCleanName(name: string)
    requires name != ""
    requires forall k :: 0 <= k < |name| ==> IsNameChar(name[k])
    ensures SanitizeAppName(name) == name
  {
    var replaced := ReplaceChar(name, ' ', '-');
    assert replaced == name;
    KeepNameCharsOfNameChars(name);
  }

  /** Sanitising a command name again changes nothing. */
  lemma SanitizeIdempotent(name: string)
    ensures SanitizeAppName(SanitizeAppName(name)) == SanitizeAppName(name)
  {
    SanitizeKeepsCleanName(SanitizeAppName(name));
  }

  lemma {:induction false} KeepNameCharsEmpty(s: string)
    ensures CleanedName(s) == "" <==>
            forall k :: 0 <= k < |s| ==> s[k] != ' ' && !IsNameChar(s[k])
  {
    if s != [] {
      KeepNameCharsEmpty(s[1..]);
      assert ReplaceChar(s, ' ', '-')[1..] == ReplaceChar(s[1..], ' ', '-');
      assert forall k :: 1 <= k < |s| ==> s[k] == s[1..][k - 1];
    }
  }

  /** The fallback "app" is used exactly when the name has no space and no `[A-Za-z0-9_-]` character. */
  lemma SanitizeFallback(name: string)
    ensures (forall k :: 0 <= k < |name| ==> name[k] != ' ' && !IsNameChar(name[k])) ==> SanitizeAppName(name) == "app"
    ensures (exists k :: 0 <= k < |name| && (name[k] == ' ' || IsNameChar(name[k]))) ==>
            SanitizeAppName(name) == CleanedName(name)
  {
    KeepNameCharsEmpty(name);
  }

  /**
    What `str.lower()` does to one character, as far as the filter
    `[^a-z0-9]` that follows it can tell: ASCII capitals, KELVIN SIGN (to `k`)
    and LATIN CAPITAL LETTER I WITH DOT ABOVE (to `i` and a combining dot).
    Every other character is left as it is; its Python lowercase form holds
    no ASCII letter or digit either, so the filter removes it the same.
   */
  function LowerChar(c: char): (r: string)
    ensures 'A' <= c <= 'Z' ==> r == [(c as int + 32) as char]
  {
    if 'A' <= c <= 'Z' then [(c as int + 32) as char]
    else if c == '\U{212a}' then "k"
    else if c == '\U{130}' then "i\U{307}"
    else [c]
  }

  function Lower(s: string): string
  {
    if s == [] then [] else LowerChar(s[0]) + Lower(s[1..])
  }

  /** `s.replace(c, '')`. */
  function RemoveChar(s: string, c: char): (r: string)
    ensures c !in r
  {
    if s == [] then [] else (if s[0] == c then [] else [s[0]]) + RemoveChar(s[1..], c)
  }

  predicate IsLowerAlnum(c: char) { 'a' <= c <= 'z' || IsAsciiDigit(c) }

  /** `re.sub(r'[^a-z0-9]+', '', s)`. */
  function KeepLowerAlnum(s: string): (r: string)
    ensures forall k :: 0 <= k < |r| ==> IsLowerAlnum(r[k])
  {
    if s == [] then [] else (if IsLowerAlnum(s[0]) then [s[0]] else []) + KeepLowerAlnum(s[1..])
  }

  /** `re.sub(r'[^a-z0-9]+', '', s.lower().replace(' ', ''))`. */
  function SaneIdPart(s: string): (r: string)
    ensures forall k :: 0 <= k < |r| ==> IsLowerAlnum(r[k])
  {
    KeepLowerAlnum(RemoveChar(Lower(s), ' '))
  }

  /** `lower()` works character by character. */
  lemma {:induction false} LowerAppend(a: string, b: string)
    ensures Lower(a + b) == Lower(a) + Lower(b)
  {
    if a == [] {
      assert a + b == b;
    } else {
      var ab := a + b;
      assert ab[0] == a[0] && ab[1..] == a[1..] + b;
      var h: string := LowerChar(a[0]);
      assert Lower(ab) == h + Lower((a[1..] + b));
      assert Lower(a) == h + Lower(a[1..]);
      LowerAppend(a[1..], b);
      assert h + (Lower(a[1..]) + Lower(b)) == (h + Lower(a[1..])) + Lower(b);
    }
  }

  lemma LowerOne(c: char)
    ensures Lower([c]) == LowerChar(c)
  {
    assert [c][1..] == [];
  }

  lemma {:induction false} RemoveCharAppend(a: string, b: string, c: char)
    ensures RemoveChar(a + b, c) == RemoveChar(a, c) + RemoveChar(b, c)
  {
    if a == [] {
      assert a + b == b;
    } else {
      var ab := a + b;
      assert ab[0] == a[0] && ab[1..] == a[1..] + b;
      var h: string := if a[0] == c then [] else [a[0]];
      assert RemoveChar(ab, c) == h + RemoveChar(a[1..] + b, c);
      assert RemoveChar(a, c) == h + RemoveChar(a[1..], c);
      RemoveCharAppend(a[1..], b, c);
      assert h + (RemoveChar(a[1..], c) + RemoveChar(b, c)) == (h + RemoveChar(a[1..], c)) + RemoveChar(b, c);
    }
  }

  lemma RemoveCharOne(x: char, c: char)
    ensures RemoveChar([x], c) == if x == c then [] else [x]
  {
    assert [x][1..] == [];
  }

  /** The filter keeps the lower-case letters and digits of each part, in order. */
  lemma {:induction false} KeepLowerAlnumAppend(a: string, b: string)
    ensures KeepLowerAlnum(a + b) == KeepLowerAlnum(a) + KeepLowerAlnum(b)
  {
    if a == [] {
      assert a + b == b;
    } else {
      var ab := a + b;
      assert ab[0] == a[0] && ab[1..] == a[1..] + b;
      var h: string := if IsLowerAlnum(a[0]) then [a[0]] else [];
      assert KeepLowerAlnum(ab) == h + KeepLowerAlnum((a[1..] + b));
      assert KeepLowerAlnum(a) == h + KeepLowerAlnum(a[1..]);
      KeepLowerAlnumAppend(a[1..], b);
      assert h + (KeepLowerAlnum(a[1..]) + KeepLowerAlnum(b)) == (h + KeepLowerAlnum(a[1..])) + KeepLowerAlnum(b);
    }
  }

  lemma KeepLowerAlnumOne(c: char)
    ensures KeepLowerAlnum([c]) == if IsLowerAlnum(c) then [c] else []
  {
    assert [c][1..] == [];
  }

  /** A sanitised ID part is made of the sanitised characters, in order. */
  lemma SaneIdPartAppend(a: string, b: string)
    ensures SaneIdPart(a + b) == SaneIdPart(a) + SaneIdPart(b)
  {
    LowerAppend(a, b);
    RemoveCharAppend(Lower(a), Lower(b), ' ');
    KeepLowerAlnumAppend(RemoveChar(Lower(a), ' '), RemoveChar(Lower(b), ' '));
  }

  /**
    What one character contributes to an ID part: an ASCII capital its
    lower-case letter, a lower-case ASCII letter or digit itself, KELVIN SIGN
    a `k`, LATIN CAPITAL LETTER I WITH DOT ABOVE an `i`, anything else nothing.
   */
  lemma SaneIdPartOne(c: char)
    ensures SaneIdPart([c]) ==
      if 'A' <= c <= 'Z' then [(c as int + 32) as char]
      else if IsLowerAlnum(c) then [c]
      else if c == '\U{212a}' then "k"
      else if c == '\U{130}' then "i"
      else []
  {
    LowerOne(c);
    var l := LowerChar(c);
    if |l| == 1 {
      RemoveCharOne(l[0], ' ');
      assert l == [l[0]];
      if l[0] != ' ' {
        KeepLowerAlnumOne(l[0]);
      }
    } else {
      assert l == "i\U{307}";
      assert RemoveChar(l, ' ') == l by {
        RemoveCharAppend("i", "\U{307}", ' ');
        RemoveCharOne('i', ' ');
        RemoveCharOne('\U{307}', ' ');
      }
      KeepLowerAlnumAppend("i", "\U{307}");
      KeepLowerAlnumOne('i');
      KeepLowerAlnumOne('\U{307}');
    }
  }

  datatype AppIdOutcome =
    | MissingNames        // "Please fill in the 'Author' and 'App Name' fields first."
    | NoUsableCharacters  // "Author and App Name must contain valid alphanumeric characters."
    | Generated(id: string)

  /** `io.github.<author>.<name>` from already sanitised parts. */
  function GitHubId(author: string, name: string): string
  {
    "io.github." + author + "." + name
  }

  lemma GitHubIdPieces(author: string, name: string)
    requires '.' !in author && '.' !in name
    ensures Split(GitHubId(author, name), '.') == ["io", "github", author, name]
  {
    var xs := ["io", "github", author, name];
    assert Join(xs, ".") == GitHubId(author, name) by {
      assert Join(xs[3..], ".") == name;
      assert Join(xs[2..], ".") == author + "." + name;
    }
    SplitJoin(xs, '.');
  }

  lemma LowerAlnumHasNoDot(s: string)
    requires forall k :: 0 <= k < |s| ==> IsLowerAlnum(s[k])
    ensures '.' !in s
  {
  }

  /**
    `generate_app_id` over the values of the Author and App Name fields: the
    identifier it writes into the App ID field, or the warning it shows.
   */
  function GenerateAppId(author: string, appName: string): (r: AppIdOutcome)
    ensures r.MissingNames? <==> author == "" || appName == ""
    ensures r.Generated? <==> author != "" && appName != "" && SaneIdPart(author) != "" && SaneIdPart(appName) != ""
    ensures r.Generated? ==>
      && Split(r.id, '.') == ["io", "github", SaneIdPart(author), SaneIdPart(appName)]
      && ValidateDnsFormat(r.id)
  {
    if author == "" || appName == "" then MissingNames
    else
      var saneAuthor, saneName := SaneIdPart(author), SaneIdPart(appName);
      if saneAuthor == "" || saneName == "" then NoUsableCharacters
      else
        LowerAlnumHasNoDot(saneAuthor);
        LowerAlnumHasNoDot(saneName);
        GitHubIdPieces(saneAuthor, saneName);
        Generated(GitHubId(saneAuthor, saneName))
  }

  /** When both sanitised parts begin with a letter, the generated identifier passes the App-ID check. */
  lemma GeneratedIdValidWhenLettersLead(author: string, appName: string)
    requires GenerateAppId(author, appName).Generated?
    requires IsAsciiLetter(SaneIdPart(author)[0]) && IsAsciiLetter(SaneIdPart(appName)[0])
    ensures ReverseDns(GenerateAppId(author, appName).id)
  {
    var a, n := SaneIdPart(author), SaneIdPart(appName);
    var ps := Split(GenerateAppId(author, appName).id, '.');
    assert ps == ["io", "github", a, n];
    assert IsSegment("io") && IsSegment("github") by {
      assert "github"[0] == 'g';
    }
    forall k | 0 <= k < |ps| ensures IsSegment(ps[k]) {
      assert k == 0 || k == 1 || k == 2 || k == 3;
    }
  }

  /** A sanitised part that begins with a digit makes the generated identifier fail the App-ID check. */
  lemma GeneratedIdFailsOnLeadingDigit(author: string, appName: string)
    requires GenerateAppId(author, appName).Generated?
    requires IsAsciiDigit(SaneIdPart(author)[0]) || IsAsciiDigit(SaneIdPart(appName)[0])
    ensures !ReverseDns(GenerateAppId(author, appName).id)
  {
    var ps := Split(GenerateAppId(author, appName).id, '.');
    assert !IsSegment(ps[2]) || !IsSegment(ps[3]);
  }

  /** An identifier the pattern rejects, once typed into the App ID field, gets the invalid-format label. */
  lemma RejectedIdIsMarked(form: FormState, id: string)
    requires "appId" in form.labels
    requires "appId" !in form.placeholders || form.placeholders["appId"] != id
    requires id != "" && Stripped(id) && !ReverseDns(id)
    ensures ValidateField(SetField(form, "appId", id), "appId", true) == FieldCheck(false, Some(InvalidFormatMessage))
  {
    StripStripped(id);
    StrippedMatchIsReverseDns(id);
  }

  /**
    As written, `generate_app_id` keeps a leading digit: the author "1up"
    gives "io.github.1up.game", which the App-ID pattern rejects, so the
    `validate_field` call that follows marks the freshly generated ID invalid.
   */
  lemma GeneratedIdCanFailValidation(form: FormState, author: string, appName: string)
    requires author == "1up" && appName == "Game"
    requires "appId" in form.labels
    requires "appId" !in form.placeholders || form.placeholders["appId"] != GitHubId("1up", "game")
    ensures GenerateAppId(author, appName).Generated?
    ensures var id := GenerateAppId(author, appName).id;
      && id == GitHubId("1up", "game")
      && !ReverseDns(id)
      && ValidateField(SetField(form, "appId", id), "appId", true) == FieldCheck(false, Some(InvalidFormatMessage))
  {
    SaneExamples();
    GeneratedIdFailsOnLeadingDigit(author, appName);
    var id := GenerateAppId(author, appName).id;
    ExampleIdStripped(id);
    RejectedIdIsMarked(form, id);
  }

  /** The placeholder the builder gives the App ID entry. */
  const AppIdPlaceholder := "e.g., io.github.username.appname"

  /** The same happens on the builder's own form, whose App ID entry shows `AppIdPlaceholder`. */
  lemma GeneratedIdFailsOnBuilderForm(form: FormState)
    requires "appId" in form.labels
    requires "appId" in form.placeholders && form.placeholders["appId"] == AppIdPlaceholder
    ensures var id := GenerateAppId("1up", "Game");
      && id.Generated? && id.id == GitHubId("1up", "game")
      && ValidateField(SetField(form, "appId", id.id), "appId", true) == FieldCheck(false, Some(InvalidFormatMessage))
  {
    assert |AppIdPlaceholder| != |GitHubId("1up", "game")|;
    GeneratedIdCanFailValidation(form, "1up", "Game");
  }

  lemma ExampleIdStripped(id: string)
    requires id == GitHubId("1up", "game")
    ensures id != "" && Stripped(id)
  {
  }

  lemma SaneExamples()
    ensures SaneIdPart("1up") == "1up" && SaneIdPart("Game") == "game"
  {
    SaneAuthorExample();
    SaneNameExample();
  }

  lemma SaneAuthorExample()
    ensures SaneIdPart("1up") == "1up"
  {
    assert Lower("p") == "p" + Lower("");
    assert Lower("up") == "u" + Lower("p");
    assert Lower("1up") == "1" + Lower("up");
    assert RemoveChar("p", ' ') == "p" + RemoveChar("", ' ');
    assert RemoveChar("up", ' ') == "u" + RemoveChar("p", ' ');
    assert RemoveChar("1up", ' ') == "1" + RemoveChar("up", ' ');
    assert KeepLowerAlnum("p") == "p" + KeepLowerAlnum("");
    assert KeepLowerAlnum("up") == "u" + KeepLowerAlnum("p");
    assert KeepLowerAlnum("1up") == "1" + KeepLowerAlnum("up");
  }

  lemma SaneNameExample()
    ensures SaneIdPart("Game") == "game"
  {
    LowerGame();
    assert RemoveChar("e", ' ') == "e" + RemoveChar("", ' ');
    assert RemoveChar("me", ' ') == "m" + RemoveChar("e", ' ');
    assert RemoveChar("ame", ' ') == "a" + RemoveChar("me", ' ');
    assert RemoveChar("game", ' ') == "g" + RemoveChar("ame", ' ');
    assert KeepLowerAlnum("e") == "e" + KeepLowerAlnum("");
    assert KeepLowerAlnum("me") == "m" + KeepLowerAlnum("e");
    assert KeepLowerAlnum("ame") == "a" + KeepLowerAlnum("me");
    assert KeepLowerAlnum("game") == "g" + KeepLowerAlnum("ame");
  }

  lemma LowerGame()
    ensures Lower("Game") == "game"
  {
    assert LowerChar('G') == "g";
    assert Lower("e") == "e" + Lower("");
    assert Lower("me") == "m" + Lower("e");
    assert Lower("ame") == "a" + Lower("me");
    assert Lower("Game") == "g" + Lower("ame");
  }

  datatype CheckedIdOutcome =
    | IdMissingNames
    | IdNoUsableCharacters
    | IdLeadingDigit      // a sanitised part does not begin with a letter
    | IdGenerated(id: string)

  /**
    The identifier generation the App-ID check evidently expects: the same
    sanitising, and the same warnings, plus one more when a sanitised part
    begins with a digit instead of answering with an ID the check rejects.
   */
  function GenerateCheckedAppId(author: string, appName: string): (r: CheckedIdOutcome)
    ensures r.IdGenerated? ==> AppIdPatternMatch(r.id) && ReverseDns(r.id) && ValidateDnsFormat(r.id)
    ensures r.IdGenerated? <==>
      GenerateAppId(author, appName).Generated?
      && IsAsciiLetter(SaneIdPart(author)[0]) && IsAsciiLetter(SaneIdPart(appName)[0])
    ensures r.IdGenerated? ==> r.id == GenerateAppId(author, appName).id
  {
    var g := GenerateAppId(author, appName);
    if g.MissingNames? then IdMissingNames
    else if g.NoUsableCharacters? then IdNoUsableCharacters
    else if IsAsciiLetter(SaneIdPart(author)[0]) && IsAsciiLetter(SaneIdPart(appName)[0]) then
      GeneratedIdValidWhenLettersLead(author, appName);
      PatternIsReverseDns(g.id);
      PatternImpliesDnsFormat(g.id);
      IdGenerated(g.id)
    else IdLeadingDigit
  }
}
