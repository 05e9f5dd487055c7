/**
  The two JSON endpoints of the web application: `/api/clean-text`, which
  cleans pasted text, and `/api/clean-file`, which checks an upload's name
  and cleans its decoded contents. Both report the sizes before and after
  and the number of positions `count_unicode_changes` finds changed.
 */
module WebApp {
  import opened Wrappers
  import opened Strings
  import opened CharTable
  import opened Normalize
  import opened CleanProps

  // ---------------------------------------------------------------------
  // count_unicode_changes

  /** The number of positions at which two texts differ, a position that
      only the longer text reaches counting as a difference. */
  function Diff(a: string, b: string): nat
    decreases |a|
  {
    if a == [] then |b|
    else if b == [] then |a|
    else (if a[0] != b[0] then 1 else 0) + Diff(a[1..], b[1..])
  }

  function Abs(x: int): nat
  {
    if x < 0 then -x else x
  }

  function Min(a: int, b: int): int
  {
    if a < b then a else b
  }

  /** The comparison loop of `count_unicode_changes` from index `i` up to
      the shorter length. */
  function MismatchesFrom(original: string, cleaned: string, i: int): nat
    requires 0 <= i <= Min(|original|, |cleaned|)
    decreases Min(|original|, |cleaned|) - i
  {
    if i == Min(|original|, |cleaned|) then 0
    else (if original[i] != cleaned[i] then 1 else 0) + MismatchesFrom(original, cleaned, i + 1)
  }

  /** What the loop still adds from index `i`, plus the length difference,
      is the positional difference of the two remainders. */
  lemma {:induction false} MismatchesFromIsDiff(original: string, cleaned: string, i: int)
    requires 0 <= i <= Min(|original|, |cleaned|)
    ensures MismatchesFrom(original, cleaned, i) + Abs(|original| - |cleaned|) == Diff(original[i..], cleaned[i..])
    decreases Min(|original|, |cleaned|) - i
  {
    if i < Min(|original|, |cleaned|) {
      MismatchesFromIsDiff(original, cleaned, i + 1);
      assert original[i..][1..] == original[i + 1..];
      assert cleaned[i..][1..] == cleaned[i + 1..];
    }
  }

  /** `count_unicode_changes`: the mismatches over the common length plus
      the difference in length, which is the positional difference. */
  function CountUnicodeChanges(original: string, cleaned: string): (r: nat)
    ensures r == Diff(original, cleaned)
  {
    MismatchesFromIsDiff(original, cleaned, 0);
    assert original[0..] == original && cleaned[0..] == cleaned;
    MismatchesFrom(original, cleaned, 0) + Abs(|original| - |cleaned|)
  }

  /** No change is counted exactly when the texts are equal. */
  lemma {:induction false} DiffZeroIff(a: string, b: string)
    ensures Diff(a, b) == 0 <==> a == b
    decreases |a|
  {
    if a != [] && b != [] {
      DiffZeroIff(a[1..], b[1..]);
      assert a == [a[0]] + a[1..] && b == [b[0]] + b[1..];
    }
  }

  /** The count does not depend on which text is the original. */
  lemma {:induction false} DiffSymmetric(a: string, b: string)
    ensures Diff(a, b) == Diff(b, a)
    decreases |a|
  {
    if a != [] && b != [] {
      DiffSymmetric(a[1..], b[1..]);
    }
  }

  /** The count is at least the difference in length and at most the
      longer length. */
  lemma {:induction false} DiffBounds(a: string, b: string)
    ensures Abs(|a| - |b|) <= Diff(a, b)
    ensures Diff(a, b) <= if |a| < |b| then |b| else |a|
    decreases |a|
  {
    if a != [] && b != [] {
      DiffBounds(a[1..], b[1..]);
    }
  }

  /** A common prefix adds no changes. */
  lemma {:induction false} DiffCommonPrefix(p: string, a: string, b: string)
    ensures Diff(p + a, p + b) == Diff(a, b)
    decreases |p|
  {
    if p == [] {
      assert p + a == a && p + b == b;
    } else {
      assert (p + a)[1..] == p[1..] + a;
      assert (p + b)[1..] == p[1..] + b;
      DiffCommonPrefix(p[1..], a, b);
    }
  }

  /** A one-for-one substitution inside a text counts as one change. */
  lemma OneSubstitution(a: string, x: char, y: char, b: string)
    requires x != y
    ensures Diff(a + [x] + b, a + [y] + b) == 1
  {
    assert a + [x] + b == a + ([x] + b);
    assert a + [y] + b == a + ([y] + b);
    DiffCommonPrefix(a, [x] + b, [y] + b);
    assert ([x] + b)[1..] == b && ([y] + b)[1..] == b;
    DiffZeroIff(b, b);
  }

  /** A deletion shifts what follows, and every shifted position that now
      holds another character is counted as well: deleting the first of
      `n` distinct characters counts `n` changes, not one. */
  lemma DeletionShifts(a: string, c: char, b: string)
    requires forall i :: 0 <= i < |b| ==> ([c] + b)[i] != b[i]
    ensures Diff(a + [c] + b, a + b) == |b| + 1
  {
    assert a + [c] + b == a + ([c] + b);
    DiffCommonPrefix(a, [c] + b, b);
    ShiftedAllDiffer([c] + b, b);
  }

  lemma {:induction false} ShiftedAllDiffer(u: string, v: string)
    requires |u| == |v| + 1
    requires forall i :: 0 <= i < |v| ==> u[i] != v[i]
    ensures Diff(u, v) == |u|
    decreases |v|
  {
    if v != [] {
      forall i | 0 <= i < |v[1..]| ensures u[1..][i] != v[1..][i] {
        assert u[1..][i] == u[i + 1] && v[1..][i] == v[i + 1];
      }
      ShiftedAllDiffer(u[1..], v[1..]);
    }
  }

  // ---------------------------------------------------------------------
  // str.strip()

  /** The characters Python's `str.isspace` accepts, which `str.strip()`
      removes: the white-space characters of the Unicode database. */
  predicate IsPySpace(c: char)
  {
    || ('\t' <= c <= '\r')
    || ('\U{001C}' <= c <= '\U{001F}')
    || c == ' ' || c == '\U{0085}' || c == '\U{00A0}' || c == '\U{1680}'
    || ('\U{2000}' <= c <= '\U{200A}')
    || c == '\U{2028}' || c == '\U{2029}' || c == '\U{202F}' || c == '\U{205F}' || c == '\U{3000}'
  }

  function LStrip(s: string): string
    decreases |s|
  {
    if s != [] && IsPySpace(s[0]) then LStrip(s[1..]) else s
  }

  function RStrip(s: string): string
    decreases |s|
  {
    if s != [] && IsPySpace(s[|s| - 1]) then RStrip(s[..|s| - 1]) else s
  }

  /** `s.strip()`. */
  function Strip(s: string): string
  {
    RStrip(LStrip(s))
  }

  /** A text every character of which is white space, the empty text
      included. */
  predicate AllSpace(s: string)
  {
    forall i :: 0 <= i < |s| ==> IsPySpace(s[i])
  }

  lemma {:induction false} LStripEmptyIff(s: string)
    ensures LStrip(s) == [] <==> AllSpace(s)
    ensures LStrip(s) != [] ==> !IsPySpace(LStrip(s)[0])
    decreases |s|
  {
    if s != [] {
      LStripEmptyIff(s[1..]);
      if IsPySpace(s[0]) {
        assert AllSpace(s) <==> AllSpace(s[1..]) by {
          forall i | 0 < i < |s| ensures s[i] == s[1..][i - 1] { }
        }
      }
    }
  }

  lemma {:induction false} RStripEmptyIff(s: string)
    ensures RStrip(s) == [] <==> AllSpace(s)
    decreases |s|
  {
    if s != [] {
      var front := s[..|s| - 1];
      RStripEmptyIff(front);
      if IsPySpace(s[|s| - 1]) {
        assert AllSpace(s) <==> AllSpace(front) by {
          forall i | 0 <= i < |front| ensures s[i] == front[i] { }
        }
      }
    }
  }

  /** `not s.strip()` holds exactly of the texts made of white space only. */
  lemma StripEmptyIff(s: string)
    ensures Strip(s) == [] <==> AllSpace(s)
  {
    LStripEmptyIff(s);
    var t := LStrip(s);
    RStripEmptyIff(t);
    if t != [] {
      assert !IsPySpace(t[0]);
    }
  }

  // ---------------------------------------------------------------------
  // The response and the endpoints

  /** The JSON body both endpoints return. */
  datatype CleanResponse = CleanResponse(
    success: bool,
    cleanedText: Option<string>,
    originalSize: nat,
    cleanedSize: nat,
    changesMade: nat,
    error: Option<string>)

  /** An `HTTPException` that leaves the endpoint as an error response. */
  datatype HttpError = HttpError(status: nat, detail: string)

  /** The successful response for an accepted text. */
  function Cleaned(original: string, windows: bool): (r: CleanResponse)
    ensures r.success && r.error == None
    ensures r.cleanedText == Some(Clean(original, windows))
    ensures r.changesMade == Diff(original, Clean(original, windows))
    ensures r.cleanedText.Some? && r.cleanedSize == |r.cleanedText.value|
    ensures r.originalSize == |original|
    ensures r.changesMade == 0 <==> r.cleanedText.value == original
  {
    var cleaned := Clean(original, windows);
    DiffZeroIff(original, cleaned);
    CleanResponse(true, Some(cleaned), |original|, |cleaned|, CountUnicodeChanges(original, cleaned), None)
  }

  /** `/api/clean-text`. A blank text raises `HTTPException(400, "No text
      provided")`, which the endpoint's own handler turns into a failed
      response carrying the exception's text; anything else is cleaned. */
  function CleanTextEndpoint(text: string, windows: bool): (r: CleanResponse)
    ensures r.success <==> !AllSpace(text)
    ensures r.originalSize == |text|
    ensures !r.success ==>
      r == CleanResponse(false, None, |text|, 0, 0, Some("400: No text provided"))
    ensures r.success ==>
      && r.cleanedText == Some(Clean(text, windows))
      && r.cleanedSize == |Clean(text, windows)|
      && r.changesMade == Diff(text, Clean(text, windows))
      && r.error == None
    ensures r.success ==> r == Cleaned(text, windows)
  {
    StripEmptyIff(text);
    if Strip(text) == [] then
      CleanResponse(false, None, if text != [] then |text| else 0, 0, 0, Some("400: No text provided"))
    else
      Cleaned(text, windows)
  }

  /** Without the Windows expansion, an accepted text is reported with no
      changes exactly when it was clean already. */
  lemma TextNoChangesIff(text: string)
    requires !AllSpace(text)
    ensures CleanTextEndpoint(text, false).changesMade == 0 <==> IsClean(text)
  {
    CleanUnchangedIff(text);
  }

  /** The text returned is free of typographic and invisible characters. */
  lemma TextResultIsClean(text: string, windows: bool)
    requires !AllSpace(text)
    ensures var t := CleanTextEndpoint(text, windows).cleanedText.value;
      NoTableSource(t) && NoInvisible(t) && (!windows ==> IsClean(t))
  {
    CleanComplete(text, windows);
  }

  /** The table makes one space of each non-breaking space. */
  lemma {:induction false} NbspsBecomeSpaces(s: string)
    requires forall i :: 0 <= i < |s| ==> s[i] == '\U{00A0}'
    ensures |SubstitutePerChar(s)| == |s|
    ensures forall i :: 0 <= i < |s| ==> SubstitutePerChar(s)[i] == ' '
    decreases |s|
  {
    if s != [] {
      NbspsBecomeSpaces(s[1..]);
      assert Replacement(s[0]) == " ";
    }
  }

  /** A text of non-breaking spaces only is turned away, although the
      cleaner would make as many spaces of it: `strip` counts U+00A0 as
      white space. */
  lemma NbspOnlyRejected(s: string, windows: bool)
    requires forall i :: 0 <= i < |s| ==> s[i] == '\U{00A0}'
    ensures CleanTextEndpoint(s, windows) == CleanResponse(false, None, |s|, 0, 0, Some("400: No text provided"))
    ensures |Clean(s, windows)| == |s|
    ensures forall i :: 0 <= i < |s| ==> Clean(s, windows)[i] == ' '
  {
    assert NoInvisible(s) && '\n' !in s && '\r' !in s;
    LineOnlySubstituted(s);
    NbspsBecomeSpaces(s);
  }

  /** A zero-width space alone is not white space, so it is accepted and
      cleaned to the empty text, with one change. */
  lemma ZeroWidthOnlyAccepted()
    ensures var r := CleanTextEndpoint(['\U{200B}'], false);
      r.success && r.cleanedText == Some([]) && r.cleanedSize == 0 && r.changesMade == 1
  {
    var s: string := ['\U{200B}'];
    assert !AllSpace(s) by {
      assert !IsPySpace(s[0]);
    }
    ZeroWidthCleaned();
  }

  lemma ZeroWidthCleaned()
    ensures CleanPerChar(['\U{200B}'], false) == []
  {
    var s: string := ['\U{200B}'];
    TableSources(s[0]);
    LookupIsReplacement(s[0]);
    assert SubstitutePerChar(s) == s;
    InvisibleAlone(s[0]);
  }


  lemma ScenarioArgs()
    ensures NoTableSource("It") && NoTableSource("s ") && NoTableSource(" great")
    ensures forall x :: x in "It" + "s " + " great" ==> !IsInvisible(x) && x != '\n' && x != '\r'
  {
    forall x | x in "It" + "s " + " great" ensures !IsTableSource(x) {
      TableSources(x);
    }
  }

  /** Step 1 on the sample request `It\u2019s \u2014 great\u2026`. */
  lemma ScenarioSubstitute()
    ensures SubstitutePerChar("It" + ['\U{2019}'] + "s " + ['\U{2014}'] + " great" + ['\U{2026}'])
      == "It" + "'" + "s " + "-" + " great" + "..."
  {
    var a, b, d := "It", "s ", " great";
    var c1, c2, c3 := '\U{2019}', '\U{2014}', '\U{2026}';
    ScenarioArgs();
    var x := a + [c1] + b;
    var y := x + [c2] + d;
    AppendEmpty(y + [c3]);
    SubstituteAround(a, c1, b);
    SubstituteAround(x, c2, d);
    SubstituteAround(y, c3, []);
    SubstituteContents(a);
    SubstituteContents(b);
    SubstituteContents(d);
  }

  /** The sample request is one line without invisible characters. */
  lemma ScenarioLine(s: string)
    requires s == "It" + ['\U{2019}'] + "s " + ['\U{2014}'] + " great" + ['\U{2026}']
    ensures NoInvisible(s) && '\n' !in s && '\r' !in s
  {
    ScenarioArgs();
    assert forall z :: z in s ==> z in "It" + "s " + " great" || z == '\U{2019}' || z == '\U{2014}' || z == '\U{2026}';
  }

  /** Steps 1 to 5 on the sample request: only the three typographic
      characters are rewritten. */
  lemma ScenarioText(windows: bool)
    ensures CleanPerChar("It" + ['\U{2019}'] + "s " + ['\U{2014}'] + " great" + ['\U{2026}'], windows)
      == "It" + "'" + "s " + "-" + " great" + "..."
  {
    var s := "It" + ['\U{2019}'] + "s " + ['\U{2014}'] + " great" + ['\U{2026}'];
    ScenarioLine(s);
    LineOnlySubstituted(s);
    ScenarioSubstitute();
  }

  /** The sample request: it is accepted, answered with the ASCII text,
      and reported as changed. */
  lemma ScenarioResponse(windows: bool)
    ensures var r := CleanTextEndpoint("It" + ['\U{2019}'] + "s " + ['\U{2014}'] + " great" + ['\U{2026}'], windows);
      && r.success
      && r.cleanedText == Some("It" + "'" + "s " + "-" + " great" + "...")
      && r.originalSize == 13 && r.cleanedSize == 15
      && r.changesMade > 0
  {
    var s := "It" + ['\U{2019}'] + "s " + ['\U{2014}'] + " great" + ['\U{2026}'];
    var t := "It" + "'" + "s " + "-" + " great" + "...";
    ScenarioText(windows);
    ScenarioSizes(s, t);
    DiffBounds(s, t);
  }

  lemma ScenarioSizes(s: string, t: string)
    requires s == "It" + ['\U{2019}'] + "s " + ['\U{2014}'] + " great" + ['\U{2026}']
    requires t == "It" + "'" + "s " + "-" + " great" + "..."
    ensures !AllSpace(s) && |s| == 13 && |t| == 15
  {
    assert s[0] == 'I';
  }

  // ---------------------------------------------------------------------
  // /api/clean-file

  /** The extensions the upload endpoint accepts. */
  const AllowedExtensions: seq<string> := [
    ".txt", ".md", ".text", ".log", ".csv",
    ".json", ".xml", ".html", ".css", ".js",
    ".py", ".php", ".java", ".cpp", ".c", ".h"
  ]

  function LowerChar(c: char): char
  {
    if 'A' <= c <= 'Z' then (c as int + 32) as char else c
  }

  /** `name.lower()` on ASCII letters. */
  function Lower(s: string): (r: string)
    ensures |r| == |s|
    ensures forall i :: 0 <= i < |s| ==> r[i] == LowerChar(s[i])
  {
    seq(|s|, i requires 0 <= i < |s| => LowerChar(s[i]))
  }

  /** `file.filename` is set and non-empty, and its lower-cased form ends
      with one of the allowed extensions. */
  predicate AcceptedName(filename: Option<string>)
  {
    && filename.Some?
    && filename.value != []
    && exists k :: 0 <= k < |AllowedExtensions| && IsSuffix(AllowedExtensions[k], Lower(filename.value))
  }

  /** An upload as the endpoint sees it: the file name, if any, and the
      contents after UTF-8 decoding with replacement, or the message of the
      exception reading the upload raised. */
  datatype Upload = Upload(filename: Option<string>, contents: Result<string, string>)

  /** `/api/clean-file`. An unsupported name and a blank file raise
      `HTTPException`s that leave the endpoint; a failure while reading is
      turned into a failed response; anything else is cleaned exactly as
      the text endpoint would. */
  function CleanFileEndpoint(upload: Upload, windows: bool): (r: Result<CleanResponse, HttpError>)
    ensures !AcceptedName(upload.filename) ==> r == Failure(HttpError(400, "Unsupported file type"))
    ensures AcceptedName(upload.filename) && upload.contents.Failure? ==>
      r == Success(CleanResponse(false, None, 0, 0, 0, Some("Error processing file: " + upload.contents.error)))
    ensures AcceptedName(upload.filename) && upload.contents.Success? ==>
      (r.Failure? <==> AllSpace(upload.contents.value))
    ensures r.Failure? && AcceptedName(upload.filename) ==> r.error == HttpError(400, "File appears to be empty")
  {
    StripEmptyIff(if upload.contents.Success? then upload.contents.value else []);
    if !AcceptedName(upload.filename) then
      Failure(HttpError(400, "Unsupported file type"))
    else
      match upload.contents
      case Failure(message) =>
        Success(CleanResponse(false, None, 0, 0, 0, Some("Error processing file: " + message)))
      case Success(text) =>
        if Strip(text) == [] then Failure(HttpError(400, "File appears to be empty"))
        else Success(Cleaned(text, windows))
  }

  /** A readable, non-blank upload with an accepted name gets the very
      response the text endpoint gives for its contents. */
  lemma FileAgreesWithText(filename: string, text: string, windows: bool)
    requires AcceptedName(Some(filename)) && !AllSpace(text)
    ensures CleanFileEndpoint(Upload(Some(filename), Success(text)), windows) == Success(CleanTextEndpoint(text, windows))
  {
    StripEmptyIff(text);
  }

  /** Every allowed extension begins with a dot, so a name without a dot is
      never accepted. */
  lemma NameWithoutDotRejected(filename: string)
    requires forall i :: 0 <= i < |filename| ==> filename[i] != '.'
    ensures !AcceptedName(Some(filename))
  {
    var low := Lower(filename);
    forall k | 0 <= k < |AllowedExtensions| ensures !IsSuffix(AllowedExtensions[k], low) {
      var ext := AllowedExtensions[k];
      assert ext[0] == '.';
      if |ext| <= |low| {
        assert low[|low| - |ext|] == LowerChar(filename[|low| - |ext|]);
      }
    }
  }

  /** The name test ignores the case of ASCII letters. */
  lemma NameCaseInsensitive(filename: string)
    ensures AcceptedName(Some(filename)) <==> AcceptedName(Some(Lower(filename)))
  {
    assert Lower(Lower(filename)) == Lower(filename);
  }

  /** An upper-case extension is accepted. */
  lemma UpperCaseExtensionAccepted()
    ensures AcceptedName(Some("NOTES.TXT"))
  {
    var low := Lower("NOTES.TXT");
    assert low[5..] == ".txt" by {
      assert low[5] == LowerChar('.') && low[6] == LowerChar('T');
      assert low[7] == LowerChar('X') && low[8] == LowerChar('T');
    }
    assert IsSuffix(AllowedExtensions[0], low);
  }
}
