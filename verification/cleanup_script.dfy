/**
  The command-line script: its own lenient `clean_text`, the path check
  `is_safe_path`, the output name `splitext(infile)[0] + ".clean.txt"`, and
  the decisions `main` takes for each argument. The host's `normpath`,
  `isabs` and working directory are parameters, and so is the file
  system's answer to reading an input file.
 */
module CleanupScript {
  import opened Wrappers
  import opened Strings
  import opened CharTable
  import opened Normalize
  import opened CleanProps
  import opened CleanupModule

  /** The script's `clean_text`: no type check and no short cut for the
      empty string, yet on every string it answers exactly as the strict
      module does. */
  function CleanTextScript(text: string, windows: bool): (r: string)
    ensures CleanText(Str(text), windows) == Success(r)
  {
    Clean(text, windows)
  }

  // ---------------------------------------------------------------------
  // is_safe_path

  /** The host's path functions: `os.path.normpath`, `os.path.isabs` and
      `os.getcwd()`. */
  datatype PathEnv = PathEnv(normpath: string -> string, isabs: string -> bool, cwd: string)

  /** Characters that make a path suspicious. */
  const SuspiciousChars: seq<char> := ['|', '&', ';', '`', '$', '<', '>']

  /** `any(char in path for char in suspicious_chars)`. */
  predicate HasSuspiciousChar(path: string)
  {
    exists i :: 0 <= i < |SuspiciousChars| && SuspiciousChars[i] in path
  }

  /** `is_safe_path`, check by check in the source's order, each failing
      check returning at once. */
  function IsSafePath(path: string, env: PathEnv): bool
  {
    if path == [] then false
    else
      var normalized := env.normpath(path);
      if Contains(normalized, "..") then false
      else if env.isabs(normalized) && !IsPrefix(env.cwd, normalized) then false
      else if HasSuspiciousChar(path) then false
      else true
  }

  /** A path is safe exactly when it is non-empty, its normal form holds no
      `..`, an absolute normal form begins with the working directory, and
      the raw path holds none of the suspicious characters. The order of the
      checks does not matter to the verdict. */
  lemma SafePathIff(path: string, env: PathEnv)
    ensures IsSafePath(path, env) <==>
      && path != []
      && !Contains(env.normpath(path), "..")
      && (env.isabs(env.normpath(path)) ==> IsPrefix(env.cwd, env.normpath(path)))
      && (forall c :: c in path ==> c !in SuspiciousChars)
  {
    assert forall c :: c in SuspiciousChars <==> c == '|' || c == '&' || c == ';' || c == '`' || c == '$' || c == '<' || c == '>';
    if HasSuspiciousChar(path) {
      var i :| 0 <= i < |SuspiciousChars| && SuspiciousChars[i] in path;
      assert SuspiciousChars[i] in SuspiciousChars;
    } else {
      assert SuspiciousChars[0] !in path && SuspiciousChars[1] !in path && SuspiciousChars[2] !in path;
      assert SuspiciousChars[3] !in path && SuspiciousChars[4] !in path && SuspiciousChars[5] !in path;
      assert SuspiciousChars[6] !in path;
    }
  }

  /** Any suspicious character anywhere in the raw path makes it unsafe. */
  lemma SuspiciousCharUnsafe(path: string, env: PathEnv, i: nat)
    requires i < |path| && path[i] in SuspiciousChars
    ensures !IsSafePath(path, env)
  {
    SafePathIff(path, env);
    assert path[i] in path;
  }

  /** A `..` anywhere in the normal form is rejected, even inside a file
      name such as `a..b`. */
  lemma DotDotUnsafe(path: string, env: PathEnv, i: nat)
    requires i + 2 <= |env.normpath(path)| && env.normpath(path)[i..i + 2] == ".."
    ensures !IsSafePath(path, env)
  {
    assert IsPrefix("..", env.normpath(path)[i..]);
  }

  /** An environment where `normpath` leaves a path alone, absolute means a
      leading `/`, and the working directory is `/home/user`. */
  function ExampleEnv(): PathEnv
  {
    PathEnv(p => p, p => |p| > 0 && p[0] == '/', "/home/user")
  }

  lemma FileNameWithDotsUnsafe()
    ensures !IsSafePath("a..b", ExampleEnv())
  {
    DotDotUnsafe("a..b", ExampleEnv(), 1);
  }

  /** A text without a dot holds no `..`. */
  lemma NoDotNoDotDot(n: string)
    requires '.' !in n
    ensures !Contains(n, "..")
  {
    forall i | 0 <= i <= |n| ensures !IsPrefix("..", n[i..]) {
      if i + 2 <= |n| {
        assert n[i..][0] == n[i];
        assert n[i] in n;
      }
    }
  }

  /** The working-directory test compares strings, not path components: a
      sibling directory whose name extends the working directory's passes. */
  lemma SiblingDirectoryPasses()
    ensures IsSafePath("/home/userX/f", ExampleEnv())
  {
    var n := "/home/userX/f";
    NoDotNoDotDot(n);
    SiblingParts(n);
  }

  lemma SiblingParts(n: string)
    requires n == "/home/userX/f"
    ensures IsPrefix("/home/user", n) && !HasSuspiciousChar(n)
  {
    assert n[..10] == "/home/user";
    forall i | 0 <= i < |SuspiciousChars| ensures SuspiciousChars[i] !in n {
    }
  }

  // ---------------------------------------------------------------------
  // Output file names

  /** The last index of `c` in `s`, or -1 (`s.rfind(c)`). */
  function RFind(s: string, c: char): (r: int)
    ensures -1 <= r < |s|
    ensures r >= 0 ==> s[r] == c
    ensures forall j :: r < j < |s| ==> s[j] != c
  {
    if s == [] then -1
    else if s[|s| - 1] == c then |s| - 1
    else RFind(s[..|s| - 1], c)
  }

  /** The index of the first character of `s[lo..hi]` that is not a dot,
      or `hi` if there is none: the scan that skips a file name's leading
      dots. */
  function SkipDots(s: string, lo: int, hi: int): (r: int)
    requires 0 <= lo <= hi <= |s|
    ensures lo <= r <= hi
    ensures forall j :: lo <= j < r ==> s[j] == '.'
    ensures r < hi ==> s[r] != '.'
    decreases hi - lo
  {
    if lo == hi then hi
    else if s[lo] != '.' then lo
    else SkipDots(s, lo + 1, hi)
  }

  /** `os.path.splitext`, after the host's `_splitext`: the separator is `/`
      on POSIX; on Windows it is `\` and `/` is accepted as well. The
      extension starts at the last dot after the last separator, unless
      everything before that dot in the file name is dots. */
  function SplitExt(p: string, windows: bool): (r: (string, string))
  {
    var sepIndex := if windows then Max(RFind(p, '\\'), RFind(p, '/')) else RFind(p, '/');
    var dotIndex := RFind(p, '.');
    if dotIndex > sepIndex && SkipDots(p, sepIndex + 1, dotIndex) < dotIndex then
      (p[..dotIndex], p[dotIndex..])
    else
      (p, [])
  }

  function Max(a: int, b: int): int
  {
    if a < b then b else a
  }

  /** A path separator of the host. */
  predicate IsSep(c: char, windows: bool)
  {
    c == '/' || (windows && c == '\\')
  }

  /** The two parts put back together give the path; the extension is
      empty or starts with a dot and holds no separator and no further dot. */
  lemma SplitExtParts(p: string, windows: bool)
    ensures SplitExt(p, windows).0 + SplitExt(p, windows).1 == p
    ensures var ext := SplitExt(p, windows).1;
      ext == [] || (ext[0] == '.' && forall j :: 0 < j < |ext| ==> ext[j] != '.' && !IsSep(ext[j], windows))
  {
    var ext := SplitExt(p, windows).1;
    if ext != [] {
      var d := RFind(p, '.');
      forall j | 0 < j < |ext| ensures ext[j] != '.' && !IsSep(ext[j], windows) {
        assert ext[j] == p[d + j];
      }
    }
  }

  /** The suffix every output file gets. */
  const CleanSuffix := ".clean.txt"

  /** `splitext(infile)[0] + ".clean.txt"`. */
  function OutputName(infile: string, windows: bool): (r: string)
    ensures IsSuffix(CleanSuffix, r)
    ensures IsPrefix(r[..|r| - |CleanSuffix|], infile)
  {
    var stem := SplitExt(infile, windows).0;
    SplitExtParts(infile, windows);
    assert infile[..|stem|] == stem;
    stem + CleanSuffix
  }

  /** `rfind` is pinned down by its contract: the last occurrence wins. */
  lemma RFindIs(s: string, c: char, k: int)
    requires -1 <= k < |s|
    requires k >= 0 ==> s[k] == c
    requires forall j :: k < j < |s| ==> s[j] != c
    ensures RFind(s, c) == k
  {
  }

  /** A name `stem + ext`, with a one-dot extension and a stem that holds
      no separator and is not all dots, splits into exactly those parts. */
  lemma SplitExtStemExt(stem: string, ext: string, windows: bool)
    requires exists i :: 0 <= i < |stem| && stem[i] != '.'
    requires forall i :: 0 <= i < |stem| ==> !IsSep(stem[i], windows)
    requires |ext| > 0 && ext[0] == '.'
    requires forall j :: 0 < j < |ext| ==> ext[j] != '.' && !IsSep(ext[j], windows)
    ensures SplitExt(stem + ext, windows) == (stem, ext)
  {
    var p := stem + ext;
    forall j | 0 <= j < |p| ensures !IsSep(p[j], windows) {
      if j >= |stem| {
        assert p[j] == ext[j - |stem|];
      } else {
        assert p[j] == stem[j];
      }
    }
    RFindIs(p, '/', -1);
    if windows {
      RFindIs(p, '\\', -1);
    }
    forall j | |stem| < j < |p| ensures p[j] != '.' {
      assert p[j] == ext[j - |stem|];
    }
    assert p[|stem|] == ext[0];
    RFindIs(p, '.', |stem|);
    var i :| 0 <= i < |stem| && stem[i] != '.';
    assert p[i] == stem[i];
    assert p[..|stem|] == stem && p[|stem|..] == ext;
  }

  /** A name without separators whose only dot, if any, leads it (like
      `.bashrc`) has no extension. */
  lemma SplitExtLeadingDot(p: string, windows: bool)
    requires forall j :: 0 <= j < |p| ==> !IsSep(p[j], windows)
    requires forall j :: 0 < j < |p| ==> p[j] != '.'
    ensures SplitExt(p, windows) == (p, [])
  {
    RFindIs(p, '/', -1);
    if windows {
      RFindIs(p, '\\', -1);
    }
    if |p| > 0 && p[0] == '.' {
      RFindIs(p, '.', 0);
    } else {
      RFindIs(p, '.', -1);
    }
  }

  /** The script's own example: `file1.txt` is written to
      `file1.clean.txt`. */
  lemma OutputNameExample(windows: bool)
    ensures OutputName("file1.txt", windows) == "file1.clean.txt"
  {
    var stem, ext := "file1", ".txt";
    assert stem[0] == 'f';
    assert stem + ext == "file1.txt";
    SplitExtStemExt(stem, ext, windows);
  }

  /** A hidden file keeps its whole name: `.bashrc` is written to
      `.bashrc.clean.txt`. */
  lemma OutputNameHidden(windows: bool)
    ensures OutputName(".bashrc", windows) == ".bashrc.clean.txt"
  {
    SplitExtLeadingDot(".bashrc", windows);
  }

  // ---------------------------------------------------------------------
  // The per-argument plan of `main`

  /** What `main` does with one command-line argument. */
  datatype Outcome =
    | Skipped                                         // empty: nothing at all
    | Duplicate(infile: string)                       // "[!] Skipping duplicate"
    | Unsafe(infile: string)                          // "Unsafe file path rejected"
    | Cleaned(infile: string, outfile: string, text: string, stored: string)
      // `text` is handed to `f.write`; `stored` is what the file then holds
    | Failed(infile: string)                          // reading or writing failed

  /** The environment `main` runs in: the Windows flag, the path functions,
      what opening and reading an argument returns at the moment the loop
      reaches it (the decoded text before newline translation, or `None` if
      that fails), and whether the output file can be written at that
      moment. An earlier iteration's write can change what a later read
      returns, so these are the answers the run meets, not a snapshot taken
      before it; one function per run suffices because the duplicate check
      lets each distinct argument be read at most once. */
  datatype Host = Host(windows: bool, env: PathEnv, read: string -> Option<string>, canWrite: string -> bool)

  // ---------------------------------------------------------------------
  // Text-mode reading and writing

  /** What `f.read()` returns for a file opened in text mode with the
      default `newline=None`: universal newlines turn CR LF and every lone
      CR into LF, the same rule as step 3 of the cleaner. */
  function ReadText(raw: string): string
  {
    LineEndingsPerChar(raw)
  }

  /** What `sys.stdin.read()` returns: universal newlines on Windows, the
      text as it is elsewhere. */
  function ReadStdin(raw: string, windows: bool): string
  {
    if windows then ReadText(raw) else raw
  }

  /** What a text-mode `write`, to a file or to standard output, stores:
      every LF becomes `os.linesep`, which is CR LF on Windows. */
  function WriteText(text: string, windows: bool): string
  {
    if windows then ExpandPerChar(text) else text
  }

  /** Processing an argument that passed both checks: read, clean, and
      write to the output name; a failure at either end is reported and
      the loop goes on. */
  function Process(infile: string, host: Host): Outcome
  {
    match host.read(infile)
    case None => Failed(infile)
    case Some(raw) =>
      var outfile := OutputName(infile, host.windows);
      if host.canWrite(outfile) then
        var cleaned := CleanTextScript(ReadText(raw), host.windows);
        Cleaned(infile, outfile, cleaned, WriteText(cleaned, host.windows))
      else Failed(infile)
  }

  /** The loop over the arguments with its `seen` set: empty arguments are
      skipped before anything else and never enter `seen`; a repeat is a
      duplicate; a new argument enters `seen` before the safety check. */
  function Plan(args: seq<string>, seen: set<string>, host: Host): (r: seq<Outcome>)
    ensures |r| == |args|
    decreases |args|
  {
    if args == [] then []
    else
      var infile := args[0];
      if infile == [] then [Skipped] + Plan(args[1..], seen, host)
      else if infile in seen then [Duplicate(infile)] + Plan(args[1..], seen, host)
      else
        var seen' := seen + {infile};
        if !IsSafePath(infile, host.env) then [Unsafe(infile)] + Plan(args[1..], seen', host)
        else [Process(infile, host)] + Plan(args[1..], seen', host)
  }

  /** The plan for each argument, read off its position: the `seen` set at
      position `i` holds exactly the non-empty arguments before `i`. */
  lemma {:induction false} PlanAt(args: seq<string>, seen: set<string>, host: Host, i: nat)
    requires i < |args|
    requires [] !in seen
    ensures var infile := args[i];
      Plan(args, seen, host)[i] ==
        if infile == [] then Skipped
        else if infile in seen || infile in args[..i] then Duplicate(infile)
        else if !IsSafePath(infile, host.env) then Unsafe(infile)
        else Process(infile, host)
    decreases i
  {
    if i > 0 {
      var first := args[0];
      var seen' := if first == [] || first in seen then seen else seen + {first};
      PlanAt(args[1..], seen', host, i - 1);
      assert args[1..][i - 1] == args[i];
      assert args[..i] == [first] + args[1..][..i - 1];
    }
  }

  /** The decisions of `main` for a non-empty argument list. */
  function Batch(args: seq<string>, host: Host): (r: seq<Outcome>)
    ensures |r| == |args|
  {
    Plan(args, {}, host)
  }

  /** Argument `i` is skipped when empty, a duplicate when it appeared
      before, otherwise rejected when unsafe, otherwise processed. */
  lemma BatchAt(args: seq<string>, host: Host, i: nat)
    requires i < |args|
    ensures var infile := args[i];
      Batch(args, host)[i] ==
        if infile == [] then Skipped
        else if infile in args[..i] then Duplicate(infile)
        else if !IsSafePath(infile, host.env) then Unsafe(infile)
        else Process(infile, host)
  {
    PlanAt(args, {}, host, i);
  }

  /** The duplicate check comes first: a repeated path is reported as a
      duplicate even when it is unsafe. */
  lemma RepeatIsDuplicate(args: seq<string>, host: Host, i: nat, j: nat)
    requires i < j < |args| && args[i] == args[j] && args[j] != []
    ensures Batch(args, host)[j] == Duplicate(args[j])
  {
    BatchAt(args, host, j);
    assert args[..j][i] == args[i];
  }

  /** Every processed argument is written to a `.clean.txt` file whose name
      begins with a prefix of the argument: the text handed to `write` is
      the cleaner's output for what `read` returned, and the file holds
      that text after the write's newline translation. */
  lemma BatchOutputs(args: seq<string>, host: Host, i: nat)
    requires i < |args|
    requires Batch(args, host)[i].Cleaned?
    ensures var o := Batch(args, host)[i];
      && o.infile == args[i]
      && IsSuffix(CleanSuffix, o.outfile)
      && IsPrefix(o.outfile[..|o.outfile| - |CleanSuffix|], args[i])
      && host.read(args[i]).Some?
      && host.canWrite(o.outfile)
      && o.text == Clean(ReadText(host.read(args[i]).value), host.windows)
      && o.stored == WriteText(o.text, host.windows)
  {
    BatchAt(args, host, i);
  }

  /** A run of the script: with no arguments standard input is cleaned as
      one text and written to standard output; otherwise the arguments are
      processed one by one. */
  datatype Run = Filter(cleaned: string, output: string) | Files(outcomes: seq<Outcome>)

  function RunCli(args: seq<string>, stdin: string, host: Host): (r: Run)
    ensures args == [] <==> r.Filter?
    ensures r.Filter? ==> r.cleaned == Clean(ReadStdin(stdin, host.windows), host.windows)
    ensures r.Filter? ==> r.output == WriteText(r.cleaned, host.windows)
    ensures r.Files? ==> r.outcomes == Batch(args, host)
  {
    if args == [] then
      var cleaned := CleanTextScript(ReadStdin(stdin, host.windows), host.windows);
      Filter(cleaned, WriteText(cleaned, host.windows))
    else Files(Batch(args, host))
  }

  /** On POSIX the output file holds clean text, exactly what was handed to
      `write`. */
  lemma PosixFileIsClean(raw: string)
    ensures var text := Clean(ReadText(raw), false);
      WriteText(text, false) == text && IsClean(WriteText(text, false))
  {
    CleanComplete(ReadText(raw), false);
  }

  /** On Windows the cleaner has already turned each LF into CR LF, and the
      text-mode write expands that LF once more: every line break of the
      POSIX result reaches the file as CR CR LF. */
  lemma WindowsFileDoubleCr(t: string)
    ensures WriteText(Clean(t, true), true) == ExpandPerChar(ExpandPerChar(Clean(t, false)))
  {
    WindowsExpandsPosix(t);
  }

  /** A plain character and a line feed are clean already. */
  lemma PlainLineClean(c: char)
    requires IsAscii(c) && !IsBlank(c) && c != '\n' && c != '\r'
    ensures Clean([c, '\n'], false) == [c, '\n']
  {
    var s: string := [c, '\n'];
    assert IsClean(s) by {
      AsciiHasNoSource(s);
      assert NoBlankBeforeLf(s);
    }
    CleanFixesClean(s);
  }

  /** A plain character and a line feed, cleaned on Windows and written in
      text mode, reach the file as that character, CR, CR and LF. */
  lemma DoubleCrExample(c: char)
    requires IsAscii(c) && !IsBlank(c) && c != '\n' && c != '\r'
    ensures WriteText(Clean([c, '\n'], true), true) == [c, '\r', '\r', '\n']
  {
    PlainLineClean(c);
    WindowsFileDoubleCr([c, '\n']);
    var s: string := [c, '\n'];
    var e: string := [c, '\r', '\n'];
    assert s[1..] == "\n" && e[1..] == "\r\n" && e[1..][1..] == "\n";
    assert ExpandPerChar(s) == e;
    assert ExpandPerChar(e) == [c, '\r', '\r', '\n'];
  }

  /** Text-mode reading of a CR, an invisible character and LF. */
  lemma ReadCrInvisibleLf(z: char)
    requires IsInvisible(z)
    ensures ReadText(['\r', z, '\n']) == ['\n', z, '\n']
  {
    var tail: string := [z, '\n'];
    assert ['\r', z, '\n'][1..] == tail;
    LineEndingsContents(tail);
  }

  /** A line feed, an invisible character and a line feed clean to two
      line feeds. */
  lemma CleanLfInvisibleLf(z: char)
    requires IsInvisible(z)
    ensures Clean(['\n', z, '\n'], false) == ['\n', '\n']
  {
    var read: string := ['\n', z, '\n'];
    var lfs: string := ['\n', '\n'];
    assert SubstitutePerChar(read) == read by {
      TableSources(z);
      SubstituteContents(read);
    }
    assert read[1..] == [z, '\n'] && read[1..][1..] == "\n";
    assert DeleteInvisible("\n") == "\n";
    assert DeleteInvisible(read) == lfs;
    LineEndingsContents(lfs);
    StripFixesClean(lfs);
  }

  /** A CR, an invisible character and a line feed clean to one line
      feed. */
  lemma CleanCrInvisibleLf(z: char)
    requires IsInvisible(z)
    ensures Clean(['\r', z, '\n'], false) == ['\n']
  {
    var raw: string := ['\r', z, '\n'];
    var crlf: string := ['\r', '\n'];
    assert SubstitutePerChar(raw) == raw by {
      TableSources(z);
      SubstituteContents(raw);
    }
    assert raw[1..] == [z, '\n'] && raw[1..][1..] == "\n";
    assert DeleteInvisible("\n") == "\n";
    assert DeleteInvisible(raw) == crlf;
    assert crlf[1..] == "\n";
    assert LineEndingsPerChar(crlf) == ['\n'];
    StripFixesClean(['\n']);
  }

  /** Reading in text mode runs the line-ending rule before the table and
      the deletion of invisible characters, and that can change the result:
      a CR, an invisible character and LF give two line feeds when read
      from a file, where `Clean` of the same text gives one. */
  lemma ReadBeforeCleanExample(z: char)
    requires IsInvisible(z)
    ensures Clean(ReadText(['\r', z, '\n']), false) == ['\n', '\n']
    ensures Clean(['\r', z, '\n'], false) == ['\n']
  {
    ReadCrInvisibleLf(z);
    CleanLfInvisibleLf(z);
    CleanCrInvisibleLf(z);
  }
}
