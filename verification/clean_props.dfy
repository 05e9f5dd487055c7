/**
  Properties of the whole `clean_text` pipeline: completeness, the exact
  set of texts it leaves unchanged, idempotence, the Windows expansion, and
  the ordering effects between its steps, with the documented examples.
 */
module CleanProps {
  import opened Strings
  import opened CharTable
  import opened Normalize

  /** Completeness: no table source and no invisible character survives;
      without the Windows expansion no CR survives and no space or tab is
      left before a line feed. */
  lemma CleanComplete(s: string, windows: bool)
    ensures NoTableSource(Clean(s, windows)) && NoInvisible(Clean(s, windows))
    ensures !windows ==> IsClean(Clean(s, windows))
  {
    var t1 := SubstitutePerChar(s);
    var t2 := DeleteInvisible(t1);
    var t3 := LineEndingsPerChar(t2);
    var t4 := StripPerChar(t3);
    SubstituteContents(s);
    DeleteInvisibleContents(t1);
    LineEndingsContents(t2);
    StripContents(t3);
    TableSources('\n');
    TableSources('\r');
    assert NoTableSource(t2) && NoInvisible(t2);
    assert NoTableSource(t3) && NoInvisible(t3);
    assert IsClean(t4);
    if windows {
      ExpandContents(t4);
    }
  }

  /** Clean text passes through `Clean(_, false)` unchanged. */
  lemma CleanFixesClean(s: string)
    requires IsClean(s)
    ensures Clean(s, false) == s
  {
    SubstituteContents(s);
    DeleteInvisibleContents(s);
    LineEndingsContents(s);
    StripFixesClean(s);
  }

  /** Nothing else changes: `Clean(_, false)` leaves a text unchanged exactly
      when it holds no table source, no invisible character, no CR and no
      space or tab before a line feed. */
  lemma CleanUnchangedIff(s: string)
    ensures Clean(s, false) == s <==> IsClean(s)
  {
    CleanComplete(s, false);
    if IsClean(s) {
      CleanFixesClean(s);
    }
  }

  /** With Windows expansion the output is the POSIX output with every LF
      replaced by CR LF; normalising its line endings gives the POSIX output
      back, and it uses CR LF exclusively. */
  lemma WindowsExpandsPosix(s: string)
    ensures Clean(s, true) == ExpandPerChar(Clean(s, false))
    ensures NormalizeLineEndings(Clean(s, true)) == Clean(s, false)
    ensures CrlfOnly(Clean(s, true))
  {
    CleanComplete(s, false);
    ExpandRoundTrip(Clean(s, false));
    ExpandCrlfOnly(Clean(s, false));
  }

  /** Cleaning twice with the same flag is cleaning once. */
  lemma CleanIdempotent(s: string, windows: bool)
    ensures Clean(Clean(s, windows), windows) == Clean(s, windows)
  {
    var c := Clean(s, false);
    CleanComplete(s, false);
    CleanFixesClean(c);
    if windows {
      var e := ExpandPerChar(c);
      WindowsExpandsPosix(s);
      assert e == Clean(s, true);
      ExpandContents(c);
      TableSources('\r');
      assert NoTableSource(e) && NoInvisible(e);
      SubstituteContents(e);
      DeleteInvisibleContents(e);
      ExpandRoundTrip(c);
      StripFixesClean(c);
    }
  }

  /** The empty string is returned unchanged. */
  lemma CleanEmpty(windows: bool)
    ensures Clean([], windows) == []
  {
  }

  /** The table brings in no line break: every replacement is a piece of
      one line. */
  lemma {:induction false} SubstituteNoLine(s: string)
    requires '\n' !in s && '\r' !in s
    ensures var t := SubstitutePerChar(s); '\n' !in t && '\r' !in t
    decreases |s|
  {
    if s != [] {
      assert s[0] in s;
      assert forall x :: x in s[1..] ==> x in s;
      SubstituteNoLine(s[1..]);
      if IsTableSource(s[0]) {
        ReplacementIsPlain(s[0]);
      } else {
        LookupIsReplacement(s[0]);
      }
    }
  }

  /** Steps 1 and 2 treat a text ending in a line feed and the line after
      it separately, and keep that line feed. */
  lemma LastLineFirstSteps(a: string, b: string)
    ensures var x2 := DeleteInvisible(SubstitutePerChar(a + "\n"));
      DeleteInvisible(SubstitutePerChar(a + "\n" + b)) == x2 + DeleteInvisible(SubstitutePerChar(b))
      && |x2| > 0 && x2[|x2| - 1] == '\n'
  {
    var x := a + "\n";
    assert a + "\n" + b == x + b;
    SubstituteAppend(x, b);
    SubstituteAppend(a, "\n");
    assert SubstitutePerChar("\n") == "\n";
    var x1 := SubstitutePerChar(x);
    DeleteInvisibleAppend(x1, SubstitutePerChar(b));
    DeleteInvisibleAppend(SubstitutePerChar(a), "\n");
    assert DeleteInvisible("\n") == "\n";
  }

  /** Steps 3 and 4 on a text ending in LF followed by a last line without
      LF or CR: the last line comes through unchanged. */
  lemma LastLineLaterSteps(x: string, b: string)
    requires |x| > 0 && x[|x| - 1] == '\n'
    requires '\n' !in b && '\r' !in b
    ensures StripPerChar(LineEndingsPerChar(x + b)) == StripPerChar(LineEndingsPerChar(x)) + b
  {
    LineEndingsAppend(x, b);
    LineEndingsContents(b);
    LineEndingsKeepFinalLf(x);
    StripKeepsLastLine(LineEndingsPerChar(x), b);
  }

  /** `LastLineKeepsTrailingBlanks` for the per-character pipeline. */
  lemma LastLineKeepsTrailingBlanksRef(a: string, b: string)
    requires '\n' !in b && '\r' !in b
    ensures CleanPerChar(a + "\n" + b, false)
      == CleanPerChar(a + "\n", false) + DeleteInvisible(SubstitutePerChar(b))
  {
    var x2 := DeleteInvisible(SubstitutePerChar(a + "\n"));
    var b1 := SubstitutePerChar(b);
    var b2 := DeleteInvisible(b1);
    LastLineFirstSteps(a, b);
    SubstituteNoLine(b);
    DeleteInvisibleContents(b1);
    LastLineLaterSteps(x2, b2);
  }

  /** An unterminated last line keeps its trailing spaces and tabs: cleaning
      `a`, a line feed and a final line `b` cleans `a` and the line feed and
      appends `b` with only the table applied and the invisible characters
      removed. Blanks the table makes at the end of `b` (from a non-breaking
      space) stay too; a final line with nothing for the table or step 2 is
      appended exactly as it is. */
  lemma LastLineKeepsTrailingBlanks(a: string, b: string)
    requires '\n' !in b && '\r' !in b
    ensures Clean(a + "\n" + b, false) == Clean(a + "\n", false) + DeleteInvisible(SubstitutePerChar(b))
    ensures NoTableSource(b) && NoInvisible(b) ==> Clean(a + "\n" + b, false) == Clean(a + "\n", false) + b
  {
    LastLineKeepsTrailingBlanksRef(a, b);
    if NoTableSource(b) && NoInvisible(b) {
      SubstituteContents(b);
      DeleteInvisibleContents(b);
    }
  }

  /** On a single line without invisible characters the table introduces
      neither line breaks nor invisible characters. */
  lemma SubstituteKeepsLine(s: string)
    requires NoInvisible(s) && '\n' !in s && '\r' !in s
    ensures var t := SubstitutePerChar(s); NoInvisible(t) && '\n' !in t && '\r' !in t
  {
    SubstituteNoLine(s);
    SubstituteContents(s);
  }

  /** Step 5 has nothing to do on text without a line feed. */
  lemma {:induction false} ExpandWithoutLf(t: string)
    requires '\n' !in t
    ensures ExpandPerChar(t) == t
    decreases |t|
  {
    if t != [] {
      assert t[0] in t;
      assert forall x :: x in t[1..] ==> x in t;
      ExpandWithoutLf(t[1..]);
    }
  }

  /** A single line without invisible characters or CR is only rewritten by
      the table, on either platform. */
  lemma LineOnlySubstituted(s: string)
    requires NoInvisible(s) && '\n' !in s && '\r' !in s
    ensures CleanPerChar(s, false) == SubstitutePerChar(s)
    ensures CleanPerChar(s, true) == SubstitutePerChar(s)
  {
    var t := SubstitutePerChar(s);
    SubstituteContents(s);
    SubstituteKeepsLine(s);
    SingleLineNoBlankBeforeLf(t);
    CleanAfterTable(s);
    ExpandWithoutLf(t);
  }

  // ---------------------------------------------------------------------
  // Examples

  /** Step 1 applied to one character between two texts. */
  lemma SubstituteAround(a: string, c: char, b: string)
    ensures SubstitutePerChar(a + [c] + b) == SubstitutePerChar(a) + Replacement(c) + SubstitutePerChar(b)
  {
    SubstituteAppend(a + [c], b);
    SubstituteAppend(a, [c]);
    assert [c][1..] == [];
  }

  /** ASCII text holds no table source and no invisible character. */
  lemma AsciiHasNoSource(s: string)
    requires forall c :: c in s ==> IsAscii(c)
    ensures NoTableSource(s) && NoInvisible(s)
  {
    forall c | c in s ensures !IsTableSource(c) {
      TableSources(c);
    }
  }

  /** ASCII text passes through steps 1 and 2 unchanged. */
  lemma AsciiIsPlain(s: string)
    requires forall c :: c in s ==> IsAscii(c)
    ensures SubstitutePerChar(s) == s && DeleteInvisible(s) == s
  {
    AsciiHasNoSource(s);
    SubstituteContents(s);
    DeleteInvisibleContents(s);
  }

  /** When step 1 alone already yields clean text, the later steps keep it. */
  lemma CleanAfterTable(s: string)
    requires IsClean(SubstitutePerChar(s))
    ensures CleanPerChar(s, false) == SubstitutePerChar(s)
  {
    var t := SubstitutePerChar(s);
    DeleteInvisibleContents(t);
    LineEndingsContents(t);
    StripFixesClean(t);
  }

  /** Assembles a worked example from the results of the four POSIX steps. */
  lemma CleanBySteps(s: string, t1: string, t2: string, t3: string, t4: string)
    requires SubstitutePerChar(s) == t1 && DeleteInvisible(t1) == t2
    requires LineEndingsPerChar(t2) == t3 && StripPerChar(t3) == t4
    ensures CleanPerChar(s, false) == t4
  {
  }

  /** Text without a line feed has no space or tab before one. */
  lemma SingleLineNoBlankBeforeLf(t: string)
    requires '\n' !in t
    ensures NoBlankBeforeLf(t)
  {
    forall i | 0 <= i < |t| - 1 ensures !(IsBlank(t[i]) && t[i + 1] == '\n') {
      assert t[i + 1] in t;
    }
  }

  /** A line feed followed by a single line has no space or tab before a
      line feed. */
  lemma LfThenLineNoBlankBeforeLf(b: string)
    requires '\n' !in b
    ensures NoBlankBeforeLf("\n" + b)
  {
    var t := "\n" + b;
    forall i | 0 <= i < |t| - 1 ensures !(IsBlank(t[i]) && t[i + 1] == '\n') {
      assert t[i + 1] == b[i];
      assert b[i] in b;
    }
  }

  /** A space directly before the line feed that starts a line is dropped. */
  lemma StripSpaceThenLine(b: string)
    requires '\n' !in b
    ensures StripPerChar(" \n" + b) == "\n" + b
  {
    var lb := "\n" + b;
    var rest := [' '] + lb;
    assert rest == " \n" + b;
    assert rest[1..] == lb && BlanksThenLf(lb);
    LfThenLineNoBlankBeforeLf(b);
    StripFixesClean(lb);
  }

  /** Step 4 keeps a head without trailing blanks and works on the rest. */
  lemma StripKeepsCleanHead(a: string, rest: string)
    requires NoBlankBeforeLf(a)
    requires a == [] || !IsBlank(a[|a| - 1])
    ensures StripPerChar(a + rest) == a + StripPerChar(rest)
  {
    StripAppend(a, rest);
    StripFixesClean(a);
  }

  /** Between two single lines, a space before the line feed is stripped. */
  lemma StripBlankLf(a: string, b: string)
    requires '\n' !in a && '\n' !in b
    requires a == [] || !IsBlank(a[|a| - 1])
    ensures StripPerChar(a + " \n" + b) == a + "\n" + b
  {
    SingleLineNoBlankBeforeLf(a);
    StripKeepsCleanHead(a, " \n" + b);
    StripSpaceThenLine(b);
    ConcatAssoc(a, " \n", b);
    ConcatAssoc(a, "\n", b);
  }

  /** `BlankBeforeLfStripped` for the per-character pipeline. */
  lemma BlankBeforeLfStrippedRef(a: string, b: string)
    requires forall x :: x in a ==> IsAscii(x)
    requires forall x :: x in b ==> IsAscii(x)
    requires '\n' !in a && '\n' !in b && '\r' !in a && '\r' !in b
    requires a == [] || !IsBlank(a[|a| - 1])
    ensures CleanPerChar(a + " \n" + b, false) == a + "\n" + b
  {
    var s := a + " \n" + b;
    assert forall x :: x in s ==> x in a || x == ' ' || x == '\n' || x in b;
    AsciiIsPlain(s);
    assert '\r' !in s;
    LineEndingsContents(s);
    StripBlankLf(a, b);
  }

  /** Two ASCII lines joined by a space and a line feed: cleaning drops the
      space and keeps everything else. */
  lemma BlankBeforeLfStripped(a: string, b: string)
    requires forall x :: x in a ==> IsAscii(x)
    requires forall x :: x in b ==> IsAscii(x)
    requires '\n' !in a && '\n' !in b && '\r' !in a && '\r' !in b
    requires a == [] || !IsBlank(a[|a| - 1])
    ensures Clean(a + " \n" + b, false) == a + "\n" + b
  {
    BlankBeforeLfStrippedRef(a, b);
  }

  /** `TableCharInLine` for the per-character pipeline. */
  lemma TableCharInLineRef(a: string, c: char, b: string)
    requires IsTableSource(c)
    requires NoTableSource(a) && NoInvisible(a) && NoTableSource(b) && NoInvisible(b)
    requires '\n' !in a && '\n' !in b && '\r' !in a && '\r' !in b
    ensures CleanPerChar(a + [c] + b, false) == a + Replacement(c) + b
  {
    SubstituteAround(a, c, b);
    SubstituteContents(a);
    SubstituteContents(b);
    var r := Replacement(c);
    ReplacementIsPlain(c);
    var t := a + r + b;
    assert forall x :: x in t ==> x in a || x in r || x in b;
    SingleLineNoBlankBeforeLf(t);
    assert IsClean(t);
    CleanAfterTable(a + [c] + b);
  }

  /** A replacement text is a plain piece of one line. */
  lemma ReplacementIsPlain(c: char)
    requires IsTableSource(c)
    ensures var r := Replacement(c);
      '\n' !in r && '\r' !in r && NoTableSource(r) && NoInvisible(r)
  {
    var r := Replacement(c);
    TableSources(c);
    assert r == "'" || r == "\"" || r == "-" || r == "..." || r == " ";
    forall x | x in r ensures !IsTableSource(x) {
      TableSources(x);
    }
  }

  /** One table character inside a single line of otherwise clean text:
      exactly that character is rewritten, whatever else the line holds
      (accented letters included). */
  lemma TableCharInLine(a: string, c: char, b: string)
    requires IsTableSource(c)
    requires NoTableSource(a) && NoInvisible(a) && NoTableSource(b) && NoInvisible(b)
    requires '\n' !in a && '\n' !in b && '\r' !in a && '\r' !in b
    ensures Clean(a + [c] + b, false) == a + Replacement(c) + b
  {
    TableCharInLineRef(a, c, b);
  }

  /** `InvisibleInLine` for the per-character pipeline. */
  lemma InvisibleInLineRef(a: string, c: char, b: string)
    requires IsInvisible(c)
    requires NoTableSource(a) && NoInvisible(a) && NoTableSource(b) && NoInvisible(b)
    requires '\n' !in a && '\n' !in b && '\r' !in a && '\r' !in b
    ensures CleanPerChar(a + [c] + b, false) == a + b
  {
    var s := a + [c] + b;
    InvisibleKeptByTable(a, c, b);
    InvisibleDeleted(a, c, b);
    var t := a + b;
    assert forall x :: x in t ==> x in a || x in b;
    LineEndingsContents(t);
    SingleLineNoBlankBeforeLf(t);
    StripFixesClean(t);
    CleanBySteps(s, s, t, t, t);
  }

  /** Step 1 leaves an invisible character, and clean text around it, alone. */
  lemma InvisibleKeptByTable(a: string, c: char, b: string)
    requires IsInvisible(c)
    requires NoTableSource(a) && NoTableSource(b)
    ensures SubstitutePerChar(a + [c] + b) == a + [c] + b
  {
    SubstituteAround(a, c, b);
    SubstituteContents(a);
    SubstituteContents(b);
    TableSources(c);
    LookupIsReplacement(c);
  }

  /** Step 2 removes a lone invisible character. */
  lemma InvisibleAlone(c: char)
    requires IsInvisible(c)
    ensures DeleteInvisible([c]) == []
  {
    assert [c][1..] == [];
  }

  /** Step 2 removes exactly the invisible character. */
  lemma InvisibleDeleted(a: string, c: char, b: string)
    requires IsInvisible(c)
    requires NoInvisible(a) && NoInvisible(b)
    ensures DeleteInvisible(a + [c] + b) == a + b
  {
    var ac := a + [c];
    DeleteInvisibleAppend(ac, b);
    DeleteInvisibleAppend(a, [c]);
    DeleteInvisibleContents(a);
    DeleteInvisibleContents(b);
    InvisibleAlone(c);
    assert DeleteInvisible(ac) == a;
  }

  /** Text that holds no table source and no invisible character, split
      by `c`, whose deletion step removes exactly `c`. */
  lemma InvisibleInLine(a: string, c: char, b: string)
    requires IsInvisible(c)
    requires NoTableSource(a) && NoInvisible(a) && NoTableSource(b) && NoInvisible(b)
    requires '\n' !in a && '\n' !in b && '\r' !in a && '\r' !in b
    ensures Clean(a + [c] + b, false) == a + b
  {
    InvisibleInLineRef(a, c, b);
  }

  /** Steps 1 and 2 of the ordering example: a non-breaking space becomes a
      space and a following zero-width space disappears. */
  lemma NbspZwspBecomesSpace(a: string, b: string)
    requires NoTableSource(a) && NoInvisible(a) && NoTableSource(b) && NoInvisible(b)
    ensures DeleteInvisible(SubstitutePerChar(a + ['\U{00A0}', '\U{200B}'] + b)) == a + " " + b
  {
    SpaceThenInvisible(a, '\U{00A0}', '\U{200B}', b);
  }

  /** A character the table makes a space, followed by an invisible one,
      becomes a single space after steps 1 and 2. */
  lemma SpaceThenInvisible(a: string, n: char, z: char, b: string)
    requires NoTableSource(a) && NoInvisible(a) && NoTableSource(b) && NoInvisible(b)
    requires Replacement(n) == " " && IsInvisible(z)
    ensures DeleteInvisible(SubstitutePerChar(a + [n, z] + b)) == a + " " + b
  {
    var zb := [z] + b;
    assert [n, z] == [n] + [z];
    ConcatAssoc(a, [n], [z]);
    ConcatAssoc(a + [n], [z], b);
    SubstituteAround(a, n, zb);
    SubstituteContents(a);
    InvisibleKeptByTable([], z, b);
    assert [] + [z] + b == zb;
    var a1 := a + " ";
    assert NoInvisible(a1) by {
      assert forall x :: x in a1 ==> x in a || x == ' ';
    }
    ConcatAssoc(a1, [z], b);
    InvisibleDeleted(a1, z, b);
  }


  /** `NbspZwspBeforeLfStripped` for the per-character pipeline. */
  lemma NbspZwspBeforeLfStrippedRef(a: string, b: string)
    requires NoTableSource(a) && NoInvisible(a) && NoTableSource(b) && NoInvisible(b)
    requires '\n' !in a && '\n' !in b && '\r' !in a && '\r' !in b
    requires a == [] || !IsBlank(a[|a| - 1])
    ensures CleanPerChar(a + ['\U{00A0}', '\U{200B}', '\n'] + b, false) == a + "\n" + b
  {
    var s := a + ['\U{00A0}', '\U{200B}', '\n'] + b;
    var lb := "\n" + b;
    assert s == a + ['\U{00A0}', '\U{200B}'] + lb;
    TableSources('\n');
    assert NoTableSource(lb) && NoInvisible(lb);
    NbspZwspBecomesSpace(a, lb);
    var t := a + " \n" + b;
    assert a + " " + lb == t;
    assert forall x :: x in t ==> x in a || x == ' ' || x == '\n' || x in b;
    LineEndingsContents(t);
    StripBlankLf(a, b);
    CleanBySteps(s, SubstitutePerChar(s), t, t, a + "\n" + b);
  }

  /** Because steps 1 and 2 run before step 4, a non-breaking space and a
      zero-width space that end a line are stripped like trailing spaces. */
  lemma NbspZwspBeforeLfStripped(a: string, b: string)
    requires NoTableSource(a) && NoInvisible(a) && NoTableSource(b) && NoInvisible(b)
    requires '\n' !in a && '\n' !in b && '\r' !in a && '\r' !in b
    requires a == [] || !IsBlank(a[|a| - 1])
    ensures Clean(a + ['\U{00A0}', '\U{200B}', '\n'] + b, false) == a + "\n" + b
  {
    NbspZwspBeforeLfStrippedRef(a, b);
  }

  lemma DocExampleArgs()
    ensures NoTableSource("\"Hello\" ") && NoInvisible("\"Hello\" ") && NoTableSource(" World") && NoInvisible(" World")
  {
    forall x | x in "\"Hello\" " ensures !IsTableSource(x) {
      TableSources(x);
    }
    forall x | x in " World" ensures !IsTableSource(x) {
      TableSources(x);
    }
  }

  lemma DocExampleRef()
    ensures CleanPerChar("\"Hello\" " + ['\U{2014}'] + " World", false) == "\"Hello\" " + "-" + " World"
  {
    DocExampleArgs();
    TableSources('\U{2014}');
    TableCharInLineRef("\"Hello\" ", '\U{2014}', " World");
  }

  /** The docstring example: an em dash becomes a hyphen. */
  lemma DocExample()
    ensures Clean("\"Hello\" " + ['\U{2014}'] + " World", false) == "\"Hello\" " + "-" + " World"
  {
    DocExampleRef();
  }

  lemma EllipsisExampleArgs()
    ensures NoTableSource("Wait") && NoInvisible("Wait") && NoTableSource(" what") && NoInvisible(" what")
  {
    forall x | x in "Wait" ensures !IsTableSource(x) {
      TableSources(x);
    }
    forall x | x in " what" ensures !IsTableSource(x) {
      TableSources(x);
    }
  }

  lemma EllipsisExampleRef()
    ensures CleanPerChar("Wait" + ['\U{2026}'] + " what", false) == "Wait" + "..." + " what"
  {
    EllipsisExampleArgs();
    TableSources('\U{2026}');
    TableCharInLineRef("Wait", '\U{2026}', " what");
  }

  /** The ellipsis is the one entry that grows the text: one character
      becomes three. */
  lemma EllipsisExample()
    ensures Clean("Wait" + ['\U{2026}'] + " what", false) == "Wait" + "..." + " what"
  {
    EllipsisExampleRef();
  }

  /** Only the targeted code points change: the right single quote becomes
      an apostrophe and the accented letter passes through. */
  lemma QuotesExample()
    ensures Clean("caf\U{E9}" + ['\U{2019}'] + "s", false) == "caf\U{E9}" + "'" + "s"
  {
    forall x | x in "caf\U{E9}" ensures !IsTableSource(x) {
      TableSources(x);
    }
    forall x | x in "s" ensures !IsTableSource(x) {
      TableSources(x);
    }
    TableSources('\U{2019}');
    TableCharInLineRef("caf\U{E9}", '\U{2019}', "s");
  }

  /** A zero-width space is deleted. */
  lemma InvisibleExample()
    ensures Clean("zero" + ['\U{200B}'] + "width", false) == "zero" + "width"
  {
    AsciiHasNoSource("zero");
    AsciiHasNoSource("width");
    InvisibleInLineRef("zero", '\U{200B}', "width");
  }

  /** `"a\u00A0\u200B\n"` cleans to `"a\n"`. */
  lemma OrderingExample()
    ensures Clean("a" + ['\U{00A0}', '\U{200B}', '\n'] + "", false) == "a" + "\n" + ""
  {
    AsciiHasNoSource("a");
    AsciiHasNoSource("");
    NbspZwspBeforeLfStrippedRef("a", "");
  }

  /** A trailing space before a line feed goes. */
  lemma TrailingSpaceExample()
    ensures Clean("line1" + " \n" + "line2", false) == "line1" + "\n" + "line2"
  {
    BlankBeforeLfStrippedRef("line1", "line2");
  }

  lemma CarriageReturnRef()
    ensures CleanPerChar("\r\r\n", false) == "\n\n"
  {
    var s := "\r\r\n";
    AsciiIsPlain(s);
    assert s[1..] == "\r\n";
    assert s[1..][1..] == "\n";
    assert LineEndingsPerChar("\n") == "\n";
    assert LineEndingsPerChar(s) == "\n\n";
    StripFixesClean("\n\n");
  }

  /** A CR followed by CR LF gives two line feeds: a lone CR and a CR LF
      each become exactly one line feed. */
  lemma CarriageReturnExample()
    ensures Clean("\r\r\n", false) == "\n\n"
  {
    CarriageReturnRef();
  }
}
