/**
  The importable cleaner module used by the web application: the strict
  `clean_text`, which checks its argument's type and returns an empty
  string at once, and `get_unicode_info`, which counts the characters the
  cleaner cares about.
 */
module CleanupModule {
  import opened Wrappers
  import opened Strings
  import opened CharTable
  import opened Normalize
  import opened CleanProps

  /** The argument of `clean_text`: a `str`, or an object of any other type. */
  datatype PyValue = Str(text: string) | NonStr

  /** The exception the strict `clean_text` raises. */
  datatype TypeError = TypeError(message: string)

  /** The strict `clean_text`. A non-string raises `TypeError`; the empty
      string comes back as it is; anything else goes through the five
      steps. The short cut for the empty string does not change the
      result: every string is answered with `Clean` of it. */
  function CleanText(v: PyValue, windows: bool): (r: Result<string, TypeError>)
    ensures r.Failure? <==> v.NonStr?
    ensures r.Failure? ==> r.error == TypeError("Input must be a string")
    ensures v.Str? ==> r == Success(Clean(v.text, windows))
    ensures v == Str([]) ==> r == Success([])
  {
    match v
    case NonStr => Failure(TypeError("Input must be a string"))
    case Str(text) =>
      if text == [] then
        CleanEmpty(windows);
        Success(text)
      else
        Success(Clean(text, windows))
  }

  /** The strict variant's output has none of the table's sources and none
      of the invisible characters, and without the Windows expansion it is a
      fixed point of the cleaner. */
  lemma CleanTextComplete(text: string, windows: bool)
    ensures CleanText(Str(text), windows).Success?
    ensures var out := CleanText(Str(text), windows).value;
      NoTableSource(out) && NoInvisible(out) && (!windows ==> IsClean(out))
    ensures var out := CleanText(Str(text), windows).value;
      CleanText(Str(out), windows) == Success(out)
  {
    CleanComplete(text, windows);
    CleanIdempotent(text, windows);
  }

  // ---------------------------------------------------------------------
  // get_unicode_info

  /** The statistics dictionary `get_unicode_info` returns. */
  datatype UnicodeInfo = UnicodeInfo(
    totalChars: nat,
    asciiChars: nat,
    unicodeChars: nat,
    problematicChars: nat,
    invisibleChars: nat)

  /** The `problematic_patterns` list, written out separately from the
      replacement dictionary in the source. */
  const ProblematicPatterns: seq<char> := [
    '\U{2018}', '\U{2019}', '\U{201C}', '\U{201D}',
    '\U{2013}', '\U{2014}', '\U{2026}', '\U{00A0}'
  ]

  /** `sum(1 for c in text if ord(c) < 128)`. */
  function AsciiCount(s: string): nat
  {
    if s == [] then 0 else (if IsAscii(s[0]) then 1 else 0) + AsciiCount(s[1..])
  }

  /** `sum(text.count(char) for char in patterns)`. */
  function SumCounts(s: string, patterns: seq<char>): nat
  {
    if patterns == [] then 0 else Count(s, patterns[0]) + SumCounts(s, patterns[1..])
  }

  /** `len(re.findall('[\u200B\u200C\u200D\uFEFF\u00AD]', text))`: one
      match per invisible character. */
  function InvisibleCount(s: string): nat
  {
    if s == [] then 0 else (if IsInvisible(s[0]) then 1 else 0) + InvisibleCount(s[1..])
  }

  /** The number of characters of `s` that the substitution table rewrites. */
  function TableSourceCount(s: string): nat
  {
    if s == [] then 0 else (if IsTableSource(s[0]) then 1 else 0) + TableSourceCount(s[1..])
  }

  lemma {:induction false} AsciiCountBound(s: string)
    ensures AsciiCount(s) <= |s|
    decreases |s|
  {
    if s != [] {
      AsciiCountBound(s[1..]);
    }
  }

  /** `get_unicode_info`: every count is zero for the empty text; otherwise
      the length, its split into ASCII and non-ASCII code points, the
      occurrences of the listed problematic characters and the number of
      invisible characters. */
  function GetUnicodeInfo(s: string): (r: UnicodeInfo)
    ensures r.totalChars == |s|
    ensures r.asciiChars + r.unicodeChars == r.totalChars
    ensures s == [] ==> r == UnicodeInfo(0, 0, 0, 0, 0)
  {
    if s == [] then UnicodeInfo(0, 0, 0, 0, 0)
    else
      AsciiCountBound(s);
      var total := |s|;
      var ascii := AsciiCount(s);
      UnicodeInfo(total, ascii, total - ascii, SumCounts(s, ProblematicPatterns), InvisibleCount(s))
  }

  lemma {:induction false} SumCountsEmpty(patterns: seq<char>)
    ensures SumCounts([], patterns) == 0
    decreases |patterns|
  {
    if patterns != [] {
      SumCountsEmpty(patterns[1..]);
    }
  }

  /** Counting several patterns over two texts adds up. */
  lemma {:induction false} SumCountsAppend(a: string, b: string, patterns: seq<char>)
    ensures SumCounts(a + b, patterns) == SumCounts(a, patterns) + SumCounts(b, patterns)
    decreases |patterns|
  {
    if patterns != [] {
      CountAppend(a, b, patterns[0]);
      SumCountsAppend(a, b, patterns[1..]);
    }
  }

  lemma {:induction false} CountAppend(a: string, b: string, c: char)
    ensures Count(a + b, c) == Count(a, c) + Count(b, c)
    decreases |a|
  {
    if a == [] {
      assert a + b == b;
    } else {
      assert (a + b)[0] == a[0];
      assert (a + b)[1..] == a[1..] + b;
      CountAppend(a[1..], b, c);
    }
  }

  /** No pattern is listed twice. */
  ghost predicate Distinct(patterns: seq<char>)
  {
    forall i, j :: 0 <= i < j < |patterns| ==> patterns[i] != patterns[j]
  }

  /** Over a list without repeats, a single character is counted once if it
      is listed and not at all otherwise. */
  lemma {:induction false} SumCountsOne(c: char, patterns: seq<char>)
    requires Distinct(patterns)
    ensures SumCounts([c], patterns) == if c in patterns then 1 else 0
    decreases |patterns|
  {
    if patterns != [] {
      var rest := patterns[1..];
      assert Distinct(rest) by {
        forall i, j | 0 <= i < j < |rest| ensures rest[i] != rest[j] {
          assert rest[i] == patterns[i + 1] && rest[j] == patterns[j + 1];
        }
      }
      SumCountsOne(c, rest);
      assert [c][1..] == [];
      assert Count([c], patterns[0]) == if c == patterns[0] then 1 else 0;
      if c == patterns[0] {
        assert c !in rest by {
          forall j | 0 <= j < |rest| ensures rest[j] != c {
            assert rest[j] == patterns[j + 1];
          }
        }
      } else {
        assert c in patterns <==> c in rest by {
          assert patterns == [patterns[0]] + rest;
        }
      }
    }
  }

  /** The listed problematic characters are exactly the table's sources,
      each listed once. */
  lemma PatternsAreTableSources(c: char)
    ensures c in ProblematicPatterns <==> IsTableSource(c)
    ensures Distinct(ProblematicPatterns)
  {
    TableSources(c);
  }

  /** `problematic_chars` counts the characters the table would rewrite. */
  lemma {:induction false} ProblematicIsTableSourceCount(s: string)
    ensures SumCounts(s, ProblematicPatterns) == TableSourceCount(s)
    decreases |s|
  {
    if s == [] {
      SumCountsEmpty(ProblematicPatterns);
    } else {
      assert s == [s[0]] + s[1..];
      SumCountsAppend([s[0]], s[1..], ProblematicPatterns);
      assert SumCounts(s, ProblematicPatterns) == SumCounts([s[0]], ProblematicPatterns) + SumCounts(s[1..], ProblematicPatterns);
      PatternsAreTableSources(s[0]);
      SumCountsOne(s[0], ProblematicPatterns);
      ProblematicIsTableSourceCount(s[1..]);
    }
  }

  lemma {:induction false} TableSourceCountZero(s: string)
    ensures TableSourceCount(s) == 0 <==> NoTableSource(s)
    decreases |s|
  {
    if s != [] {
      TableSourceCountZero(s[1..]);
      assert s == [s[0]] + s[1..];
      assert s[0] in s;
    }
  }

  lemma {:induction false} InvisibleCountZero(s: string)
    ensures InvisibleCount(s) == 0 <==> NoInvisible(s)
    decreases |s|
  {
    if s != [] {
      InvisibleCountZero(s[1..]);
      assert s == [s[0]] + s[1..];
      assert s[0] in s;
    }
  }

  /** The two counters of `get_unicode_info` are both zero exactly when the
      first two cleaning steps have nothing to do. */
  lemma InfoZeroIff(s: string)
    ensures var info := GetUnicodeInfo(s);
      info.problematicChars == 0 && info.invisibleChars == 0 <==> NoTableSource(s) && NoInvisible(s)
  {
    if s != [] {
      ProblematicIsTableSourceCount(s);
      TableSourceCountZero(s);
      InvisibleCountZero(s);
    }
  }

  /** On any output of `clean_text` the problematic and invisible counts
      are zero. */
  lemma InfoOfCleanOutput(s: string, windows: bool)
    ensures var info := GetUnicodeInfo(Clean(s, windows));
      info.problematicChars == 0 && info.invisibleChars == 0
  {
    CleanComplete(s, windows);
    InfoZeroIff(Clean(s, windows));
  }

  /** Problematic and invisible characters are distinct non-ASCII code
      points, so together they never exceed `unicode_chars`. */
  lemma {:induction false} FlaggedAreUnicode(s: string)
    ensures TableSourceCount(s) + InvisibleCount(s) <= |s| - AsciiCount(s)
    decreases |s|
  {
    if s != [] {
      TableSources(s[0]);
      FlaggedAreUnicode(s[1..]);
    }
  }

  lemma InfoFlaggedWithinUnicode(s: string)
    ensures var info := GetUnicodeInfo(s);
      info.problematicChars + info.invisibleChars <= info.unicodeChars
  {
    if s != [] {
      ProblematicIsTableSourceCount(s);
      FlaggedAreUnicode(s);
    }
  }
}
