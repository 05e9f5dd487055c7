/**
  The five steps of `clean_text`, shared by the module and the script
  variant. Each step is written the way the source performs it (a
  `str.replace` chain or a regular-expression substitution) and proved equal
  to a per-character reference definition; the properties are proved about
  the reference definitions.
 */
module Normalize {
  import opened Strings
  import opened CharTable

  /** No character of `s` is one the substitution table rewrites. */
  predicate NoTableSource(s: string)
  {
    forall c :: c in s ==> !IsTableSource(c)
  }

  /** No character of `s` is in the invisible class. */
  predicate NoInvisible(s: string)
  {
    forall c :: c in s ==> !IsInvisible(c)
  }

  /** `s` holds no carriage return. */
  predicate NoCR(s: string)
  {
    '\r' !in s
  }

  /** No space or tab sits directly before a line feed. */
  predicate NoBlankBeforeLf(s: string)
  {
    forall i :: 0 <= i < |s| - 1 ==> !(IsBlank(s[i]) && s[i + 1] == '\n')
  }

  /** What `Clean(_, false)` produces, and exactly what it leaves alone. */
  predicate IsClean(s: string)
  {
    NoTableSource(s) && NoInvisible(s) && NoCR(s) && NoBlankBeforeLf(s)
  }

  // ---------------------------------------------------------------------
  // Step 1: the substitution table

  /** Every character of `s` rewritten by the table on its own. */
  function SubstitutePerChar(s: string): string
  {
    if s == [] then [] else Replacement(s[0]) + SubstitutePerChar(s[1..])
  }

  /** Step 1 as written: `text = text.replace(orig, repl)` for each table
      entry in turn. It equals the per-character rewrite. */
  function Substitute(s: string): (r: string)
    ensures r == SubstitutePerChar(s)
  {
    TableWellFormed();
    ApplyRulesIsMap(s, Replacements);
    SubstituteIsMapChars(s);
    ApplyRules(s, Replacements)
  }

  lemma {:induction false} SubstituteIsMapChars(s: string)
    ensures MapChars(s, Replacements) == SubstitutePerChar(s)
    decreases |s|
  {
    if s != [] {
      LookupIsReplacement(s[0]);
      SubstituteIsMapChars(s[1..]);
    }
  }

  /** After step 1 no table source is left; every character is one of the
      input's or ASCII table text; text without table sources is unchanged. */
  lemma {:induction false} SubstituteContents(s: string)
    ensures NoTableSource(SubstitutePerChar(s))
    ensures forall c :: c in SubstitutePerChar(s) ==> c in s || IsAscii(c)
    ensures NoTableSource(s) ==> SubstitutePerChar(s) == s
    decreases |s|
  {
    if s != [] {
      var head := Replacement(s[0]);
      LookupIsReplacement(s[0]);
      forall x | x in head ensures !IsTableSource(x) {
        TableSources(x);
      }
      SubstituteContents(s[1..]);
      assert s[0] in s;
      assert s == [s[0]] + s[1..];
    }
  }

  /** Step 1 rewrites the two halves of a text independently. */
  lemma {:induction false} SubstituteAppend(a: string, b: string)
    ensures SubstitutePerChar(a + b) == SubstitutePerChar(a) + SubstitutePerChar(b)
    decreases |a|
  {
    if a == [] {
      assert a + b == b;
    } else {
      assert (a + b)[0] == a[0];
      assert (a + b)[1..] == a[1..] + b;
      SubstituteAppend(a[1..], b);
    }
  }

  /** Each entry replaces one character by one, except the ellipsis, which
      becomes three. */
  lemma {:induction false} SubstituteLength(s: string)
    ensures |SubstitutePerChar(s)| == |s| + 2 * Count(s, '\U{2026}')
    decreases |s|
  {
    if s != [] {
      SubstituteLength(s[1..]);
    }
  }

  // ---------------------------------------------------------------------
  // Step 2: deleting invisible characters

  /** Step 2, `re.sub('[\u200B\u200C\u200D\uFEFF\u00AD]', '', text)`: each
      character of the class is dropped where it stands. */
  function DeleteInvisible(s: string): string
  {
    if s == [] then []
    else (if IsInvisible(s[0]) then [] else [s[0]]) + DeleteInvisible(s[1..])
  }

  /** Step 2 removes every invisible character, adds nothing, and leaves
      text without invisible characters alone. */
  lemma {:induction false} DeleteInvisibleContents(s: string)
    ensures NoInvisible(DeleteInvisible(s))
    ensures forall c :: c in DeleteInvisible(s) ==> c in s
    ensures NoInvisible(s) ==> DeleteInvisible(s) == s
    decreases |s|
  {
    if s != [] {
      DeleteInvisibleContents(s[1..]);
      assert forall c :: c in s[1..] ==> c in s;
      assert s[0] in s;
      assert s == [s[0]] + s[1..];
    }
  }

  /** Step 2 keeps every character that is not invisible as often as it
      occurs. */
  lemma {:induction false} DeleteInvisibleCounts(s: string)
    ensures forall c :: multiset(DeleteInvisible(s))[c] == if IsInvisible(c) then 0 else multiset(s)[c]
    decreases |s|
  {
    if s != [] {
      DeleteInvisibleCounts(s[1..]);
      var head := if IsInvisible(s[0]) then [] else [s[0]];
      assert multiset(DeleteInvisible(s)) == multiset(head) + multiset(DeleteInvisible(s[1..]));
      assert s == [s[0]] + s[1..];
      assert multiset(s) == multiset([s[0]]) + multiset(s[1..]);
    }
  }

  /** Step 2 deletes from the two halves of a text independently. */
  lemma {:induction false} DeleteInvisibleAppend(a: string, b: string)
    ensures DeleteInvisible(a + b) == DeleteInvisible(a) + DeleteInvisible(b)
    decreases |a|
  {
    if a == [] {
      assert a + b == b;
    } else {
      assert (a + b)[0] == a[0];
      assert (a + b)[1..] == a[1..] + b;
      DeleteInvisibleAppend(a[1..], b);
    }
  }

  // ---------------------------------------------------------------------
  // Step 3: line endings

  /** Step 3 character by character: a CR directly followed by LF is
      dropped, and any other CR becomes LF. */
  function LineEndingsPerChar(s: string): string
  {
    if s == [] then []
    else if s[0] == '\r' && |s| > 1 && s[1] == '\n' then LineEndingsPerChar(s[1..])
    else if s[0] == '\r' then "\n" + LineEndingsPerChar(s[1..])
    else [s[0]] + LineEndingsPerChar(s[1..])
  }

  /** Step 3 as written: `text.replace('\r\n', '\n').replace('\r', '\n')`. */
  function NormalizeLineEndings(s: string): (r: string)
    ensures r == LineEndingsPerChar(s)
  {
    var joined := Replace(s, "\r\n", "\n");
    ReplaceCharIsMap(joined, '\r', "\n");
    CrlfThenCr(s);
    Replace(joined, "\r", "\n")
  }

  lemma {:induction false} CrlfThenCr(s: string)
    ensures MapChars(Replace(s, "\r\n", "\n"), [('\r', "\n")]) == LineEndingsPerChar(s)
    decreases |s|
  {
    var cr: seq<Rule> := [('\r', "\n")];
    assert cr[1..] == [];
    if |s| < 2 {
      if s != [] {
        assert s[1..] == [];
        assert Lookup(s[0], cr[1..]) == [s[0]];
      }
    } else if s[..2] == "\r\n" {
      var rest := Replace(s[2..], "\r\n", "\n");
      MapCharsAppend("\n", rest, cr);
      CrlfThenCr(s[2..]);
      assert s[1] == '\n';
      assert s[1..][1..] == s[2..];
    } else {
      var rest := Replace(s[1..], "\r\n", "\n");
      MapCharsAppend([s[0]], rest, cr);
      CrlfThenCr(s[1..]);
      assert s[..2] == [s[0], s[1]];
      assert Lookup(s[0], cr[1..]) == [s[0]];
      assert MapChars([s[0]], cr) == (if s[0] == '\r' then "\n" else [s[0]]) by {
        assert [s[0]][1..] == [];
      }
    }
  }

  /** After step 3 no CR is left, the only new character is LF, and text
      without CR is unchanged. */
  lemma {:induction false} LineEndingsContents(s: string)
    ensures NoCR(LineEndingsPerChar(s))
    ensures forall c :: c in LineEndingsPerChar(s) ==> c in s || c == '\n'
    ensures NoCR(s) ==> LineEndingsPerChar(s) == s
    decreases |s|
  {
    if s != [] {
      LineEndingsContents(s[1..]);
      assert s == [s[0]] + s[1..];
      assert s[0] in s;
    }
  }

  /** Step 3 splits at any point not preceded by a CR. */
  lemma {:induction false} LineEndingsAppend(a: string, b: string)
    requires a == [] || a[|a| - 1] != '\r'
    ensures LineEndingsPerChar(a + b) == LineEndingsPerChar(a) + LineEndingsPerChar(b)
    decreases |a|
  {
    if a == [] {
      assert a + b == b;
    } else {
      assert (a + b)[0] == a[0];
      assert (a + b)[1..] == a[1..] + b;
      if |a| > 1 {
        assert (a + b)[1] == a[1];
      }
      LineEndingsAppend(a[1..], b);
    }
  }

  /** A text that ends in LF still ends in LF after step 3. */
  lemma {:induction false} LineEndingsKeepFinalLf(s: string)
    requires |s| > 0 && s[|s| - 1] == '\n'
    ensures var r := LineEndingsPerChar(s); |r| > 0 && r[|r| - 1] == '\n'
    decreases |s|
  {
    if |s| > 1 {
      LineEndingsKeepFinalLf(s[1..]);
    }
  }

  // ---------------------------------------------------------------------
  // Step 4: trailing spaces and tabs

  /** `t` starts with zero or more spaces/tabs and then a line feed. */
  predicate BlanksThenLf(t: string)
    decreases |t|
  {
    t != [] && (t[0] == '\n' || (IsBlank(t[0]) && BlanksThenLf(t[1..])))
  }

  /** Step 4 character by character: a space or tab is dropped exactly when
      the next character that is not a space or tab is a line feed. */
  function StripPerChar(s: string): string
  {
    if s == [] then []
    else if IsBlank(s[0]) && BlanksThenLf(s[1..]) then StripPerChar(s[1..])
    else [s[0]] + StripPerChar(s[1..])
  }

  /** The length of the run of spaces/tabs at the start of `s`. */
  function BlankRun(s: string): (n: nat)
    ensures n <= |s|
    ensures forall i :: 0 <= i < n ==> IsBlank(s[i])
    ensures n < |s| ==> !IsBlank(s[n])
    decreases |s|
  {
    if s != [] && IsBlank(s[0]) then 1 + BlankRun(s[1..]) else 0
  }

  /** Step 4 as written: `re.sub('[ \t]+\n', '\n', text)`. At each position
      the greedy pattern matches a maximal space/tab run followed by a line
      feed; where it does not match, one character is copied and the scan
      moves on. */
  function StripTrailingBlanks(s: string): (r: string)
    ensures r == StripPerChar(s)
    decreases |s|
  {
    if s == [] then []
    else
      var n := BlankRun(s);
      if 0 < n < |s| && s[n] == '\n' then
        MatchDropsRun(s, n);
        "\n" + StripTrailingBlanks(s[n + 1..])
      else
        NoMatchKeepsHead(s);
        [s[0]] + StripTrailingBlanks(s[1..])
  }

  /** Where the pattern matches, the reference drops the whole run. */
  lemma MatchDropsRun(s: string, n: nat)
    requires 0 < n < |s| && s[n] == '\n'
    requires forall i :: 0 <= i < n ==> IsBlank(s[i])
    ensures StripPerChar(s) == "\n" + StripPerChar(s[n + 1..])
  {
    var j := n;
    while j > 0
      invariant 0 <= j <= n
      invariant BlanksThenLf(s[j..])
      invariant StripPerChar(s[j..]) == StripPerChar(s[n..])
    {
      assert s[j - 1..][1..] == s[j..];
      j := j - 1;
    }
    assert s[n..][1..] == s[n + 1..];
  }

  lemma {:induction false} RunReachesLf(t: string)
    requires BlanksThenLf(t)
    ensures BlankRun(t) < |t| && t[BlankRun(t)] == '\n'
    decreases |t|
  {
    if t[0] != '\n' {
      RunReachesLf(t[1..]);
    }
  }

  /** Where the pattern does not match, the reference keeps the first character. */
  lemma NoMatchKeepsHead(s: string)
    requires s != []
    requires !(0 < BlankRun(s) < |s| && s[BlankRun(s)] == '\n')
    ensures StripPerChar(s) == [s[0]] + StripPerChar(s[1..])
  {
    if IsBlank(s[0]) && BlanksThenLf(s[1..]) {
      RunReachesLf(s[1..]);
      assert false;
    }
  }

  /** After step 4 no space or tab precedes a line feed, and no character is
      new. */
  lemma {:induction false} StripContents(s: string)
    ensures NoBlankBeforeLf(StripPerChar(s))
    ensures forall c :: c in StripPerChar(s) ==> c in s
    ensures |StripPerChar(s)| > 0 && StripPerChar(s)[0] == '\n' ==> BlanksThenLf(s)
    decreases |s|
  {
    if s != [] {
      StripContents(s[1..]);
      assert s == [s[0]] + s[1..];
      assert s[0] in s;
    }
  }

  /** A blank that does not sit right before a line feed starts no run
      that ends in one. */
  lemma {:induction false} BlankStartsNoRun(t: string)
    requires NoBlankBeforeLf(t)
    requires |t| > 0 && IsBlank(t[0])
    ensures !BlanksThenLf(t[1..])
    decreases |t|
  {
    if |t| > 1 && IsBlank(t[1]) {
      BlankStartsNoRun(t[1..]);
      assert t[1..][1..] == t[2..];
    }
  }

  /** Text with no space or tab before a line feed passes step 4 unchanged. */
  lemma {:induction false} StripFixesClean(s: string)
    requires NoBlankBeforeLf(s)
    ensures StripPerChar(s) == s
    decreases |s|
  {
    if s != [] {
      if IsBlank(s[0]) {
        BlankStartsNoRun(s);
      }
      StripFixesClean(s[1..]);
      assert s == [s[0]] + s[1..];
    }
  }

  /** Whether a run of blanks ends in a line feed is decided inside any
      text that does not end in a blank. */
  lemma {:induction false} RunDecidedBefore(x: string, b: string)
    requires |x| > 0 && !IsBlank(x[|x| - 1])
    ensures BlanksThenLf(x + b) == BlanksThenLf(x)
    decreases |x|
  {
    assert (x + b)[0] == x[0];
    if x[0] != '\n' && IsBlank(x[0]) {
      assert (x + b)[1..] == x[1..] + b;
      RunDecidedBefore(x[1..], b);
    }
  }

  /** Step 4 splits at any point not preceded by a blank. */
  lemma {:induction false} StripAppend(a: string, b: string)
    requires a == [] || !IsBlank(a[|a| - 1])
    ensures StripPerChar(a + b) == StripPerChar(a) + StripPerChar(b)
    decreases |a|
  {
    if a == [] {
      assert a + b == b;
    } else {
      assert (a + b)[0] == a[0];
      assert (a + b)[1..] == a[1..] + b;
      if |a| > 1 {
        RunDecidedBefore(a[1..], b);
      }
      StripAppend(a[1..], b);
    }
  }

  /** Step 4 works line by line: stripping `a` followed by a final line `b`
      that has no line feed strips `a` alone and leaves `b`, trailing blanks
      included, as it is. */
  lemma StripKeepsLastLine(a: string, b: string)
    requires a == [] || a[|a| - 1] == '\n'
    requires '\n' !in b
    ensures StripPerChar(a + b) == StripPerChar(a) + b
  {
    StripAppend(a, b);
    assert NoBlankBeforeLf(b);
    StripFixesClean(b);
  }

  // ---------------------------------------------------------------------
  // Step 5: Windows line endings

  /** Step 5 character by character: each LF becomes CR LF. */
  function ExpandPerChar(s: string): string
  {
    if s == [] then [] else (if s[0] == '\n' then "\r\n" else [s[0]]) + ExpandPerChar(s[1..])
  }

  /** Step 5 as written: `text.replace('\n', '\r\n')`. */
  function ExpandLineEndings(s: string): (r: string)
    ensures r == ExpandPerChar(s)
  {
    ReplaceCharIsMap(s, '\n', "\r\n");
    ExpandIsMapChars(s);
    Replace(s, "\n", "\r\n")
  }

  lemma {:induction false} ExpandIsMapChars(s: string)
    ensures MapChars(s, [('\n', "\r\n")]) == ExpandPerChar(s)
    decreases |s|
  {
    if s != [] {
      var lf: seq<Rule> := [('\n', "\r\n")];
      assert lf[1..] == [];
      assert Lookup(s[0], lf[1..]) == [s[0]];
      ExpandIsMapChars(s[1..]);
    }
  }

  /** Step 5 adds no character but CR. */
  lemma {:induction false} ExpandContents(s: string)
    ensures forall c :: c in ExpandPerChar(s) ==> c in s || c == '\r'
    decreases |s|
  {
    if s != [] {
      ExpandContents(s[1..]);
      assert s == [s[0]] + s[1..];
      assert s[0] in s;
    }
  }

  /** Step 3 undoes step 5 on text without CR: expanding LF to CR LF and
      normalising line endings again gives back the text. */
  lemma {:induction false} ExpandRoundTrip(t: string)
    requires NoCR(t)
    ensures LineEndingsPerChar(ExpandPerChar(t)) == t
    decreases |t|
  {
    if t != [] {
      assert t == [t[0]] + t[1..];
      var rest := ExpandPerChar(t[1..]);
      ExpandRoundTrip(t[1..]);
      if t[0] == '\n' {
        var e := "\r\n" + rest;
        assert e[1..] == "\n" + rest;
        assert ("\n" + rest)[1..] == rest;
      } else {
        assert t[0] in t;
        assert ([t[0]] + rest)[1..] == rest;
      }
    }
  }

  /** Every CR in `e` is directly followed by LF and every LF directly
      preceded by CR. */
  predicate CrlfOnly(e: string)
  {
    && (forall i :: 0 <= i < |e| && e[i] == '\r' ==> i + 1 < |e| && e[i + 1] == '\n')
    && (forall i :: 0 < i < |e| && e[i] == '\n' ==> e[i - 1] == '\r')
    && (|e| > 0 ==> e[0] != '\n')
  }

  /** On text without CR, step 5 uses CR LF exclusively. */
  lemma {:induction false} ExpandCrlfOnly(t: string)
    requires NoCR(t)
    ensures CrlfOnly(ExpandPerChar(t))
    decreases |t|
  {
    if t != [] {
      assert t == [t[0]] + t[1..];
      assert t[0] in t;
      ExpandCrlfOnly(t[1..]);
      var rest := ExpandPerChar(t[1..]);
      if t[0] == '\n' {
        CrlfOnlyPrepend("\r\n", rest);
      } else {
        CrlfOnlyPrepend([t[0]], rest);
      }
    }
  }

  lemma CrlfOnlyPrepend(head: string, rest: string)
    requires head == "\r\n" || (|head| == 1 && head[0] != '\r' && head[0] != '\n')
    requires CrlfOnly(rest)
    ensures CrlfOnly(head + rest)
  {
    var e := head + rest;
    forall i | 0 <= i < |e| && e[i] == '\r'
      ensures i + 1 < |e| && e[i + 1] == '\n'
    {
      if i >= |head| {
        assert e[i] == rest[i - |head|];
        assert e[i + 1] == rest[i + 1 - |head|];
      }
    }
    forall i | 0 < i < |e| && e[i] == '\n'
      ensures e[i - 1] == '\r'
    {
      if i > |head| {
        assert e[i] == rest[i - |head|];
        assert e[i - 1] == rest[i - 1 - |head|];
      }
    }
  }

  // ---------------------------------------------------------------------
  // The pipeline

  /** All five steps, each one character at a time. */
  function CleanPerChar(s: string, windows: bool): string
  {
    var stripped := StripPerChar(LineEndingsPerChar(DeleteInvisible(SubstitutePerChar(s))));
    if windows then ExpandPerChar(stripped) else stripped
  }

  /** The five steps of `clean_text`, in order, as the source performs
      them; `windows` stands for the host check `os.name == 'nt'`. They
      amount to the per-character steps. */
  function Clean(s: string, windows: bool): (r: string)
    ensures r == CleanPerChar(s, windows)
  {
    var substituted := Substitute(s);
    var visible := DeleteInvisible(substituted);
    var unified := NormalizeLineEndings(visible);
    var stripped := StripTrailingBlanks(unified);
    if windows then ExpandLineEndings(stripped) else stripped
  }
}
