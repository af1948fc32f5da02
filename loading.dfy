/**
 * Locating and loading the GMT shared library (pygmt/clib/loading.py).
 *
 * The foreign calls are inputs gathered in a `Host`: the environment, the set
 * of paths `os.path.exists` accepts, `os.path.join`, the behaviour of
 * `gmt --show-library`, `ctypes.util.find_library` and `ctypes.CDLL`.
 */
module Loading {
  import opened Wrappers
  import opened Text

  /** The exceptions that can leave `load_libgmt`. */
  datatype LoadError =
    | OSNotSupported(message: string)     // GMTOSError from clib_names
    | CLibNotFound(message: string)       // GMTCLibNotFoundError after every candidate failed
    | CLibError(message: string)          // GMTCLibError from check_libgmt; not an OSError, so it escapes
    | CalledProcessError(returncode: int) // `gmt --show-library` exited with a non-zero status

  /** What running `gmt --show-library` does. */
  datatype ShowLibrary =
    | CommandNotFound               // FileNotFoundError: there is no `gmt` program
    | NonZeroExit(returncode: int)  // CalledProcessError
    | Output(text: string)          // the program's standard output

  /** What `ctypes.CDLL(name)` does: raise an OSError or load a library with these symbols. */
  datatype LoadOutcome = OSError(message: string) | Loaded(symbols: set<string>)

  /** A loaded `ctypes.CDLL`: the name it was loaded under and the symbols it exports. */
  datatype Library = Library(name: string, symbols: set<string>)

  datatype LoadResult = Found(lib: Library) | Raised(error: LoadError)

  datatype Host = Host(
    platform: string,                    // sys.platform
    env: map<string, string>,            // os.environ
    existing: set<string>,               // the paths os.path.exists accepts
    join: (string, string) -> string,    // os.path.join
    showLibrary: ShowLibrary,            // gmt --show-library
    findLibrary: string -> Option<string>, // ctypes.util.find_library
    cdll: string -> LoadOutcome)         // ctypes.CDLL

  // ---------------------------------------------------------------- clib_names

  /** The platforms `clib_names` knows. */
  predicate Supported(osName: string)
  {
    "linux" <= osName || osName == "darwin" || osName == "win32" || "freebsd" <= osName
  }

  function UnsupportedMessage(osName: string): string
  {
    "Operating system \"" + osName + "\" not supported."
  }

  /** The file names GMT's shared library has on platform `osName`. */
  function ClibNames(osName: string): (r: Result<seq<string>, LoadError>)
    ensures r.Success? <==> Supported(osName)
    ensures ("linux" <= osName || "freebsd" <= osName) ==> r == Success(["libgmt.so"])
    ensures osName == "darwin" ==> r == Success(["libgmt.dylib"])
    ensures osName == "win32" ==> r == Success(["gmt.dll", "gmt_w64.dll", "gmt_w32.dll"])
    ensures !Supported(osName) ==> r == Failure(OSNotSupported(UnsupportedMessage(osName)))
  {
    assert "linux" <= osName ==> osName[0] == 'l';
    assert "freebsd" <= osName ==> osName[0] == 'f';
    if "linux" <= osName then Success(["libgmt.so"])
    else if osName == "darwin" then Success(["libgmt.dylib"])
    else if osName == "win32" then Success(["gmt.dll", "gmt_w64.dll", "gmt_w32.dll"])
    else if "freebsd" <= osName then Success(["libgmt.so"])
    else Failure(OSNotSupported(UnsupportedMessage(osName)))
  }

  // ----------------------------------------------------------- clib_full_names

  /**
   * A run of the generator `clib_full_names`: the paths it yields, in order,
   * and the exception it raises when asked for the next one after them.
   */
  datatype Candidates = Candidates(paths: seq<string>, raised: Option<LoadError>)

  const LibraryPathVariable: string := "GMT_LIBRARY_PATH"

  /** `env.get("GMT_LIBRARY_PATH", "")`. */
  function LibraryPath(env: map<string, string>): string
  {
    if LibraryPathVariable in env then env[LibraryPathVariable] else ""
  }

  /** The joins of `libpath` with each name, in name order, that exist on disk. */
  function ExistingJoins(libpath: string, libnames: seq<string>, join: (string, string) -> string,
                         existing: set<string>): seq<string>
    decreases |libnames|
  {
    if libnames == [] then []
    else
      var p := join(libpath, libnames[0]);
      (if p in existing then [p] else []) + ExistingJoins(libpath, libnames[1..], join, existing)
  }

  /** The override stage yields only existing joins with a library name, and every existing join. */
  lemma {:induction false} ExistingJoinsMembers(libpath: string, libnames: seq<string>,
                                                join: (string, string) -> string, existing: set<string>)
    ensures var r := ExistingJoins(libpath, libnames, join, existing);
      && |r| <= |libnames|
      && (forall k :: 0 <= k < |r| ==> r[k] in existing)
      && (forall k :: 0 <= k < |r| ==> exists n :: n in libnames && r[k] == join(libpath, n))
      && (forall n :: n in libnames && join(libpath, n) in existing ==> join(libpath, n) in r)
    decreases |libnames|
  {
    if libnames != [] {
      ExistingJoinsMembers(libpath, libnames[1..], join, existing);
      var p := join(libpath, libnames[0]);
      var rest := ExistingJoins(libpath, libnames[1..], join, existing);
      var r := ExistingJoins(libpath, libnames, join, existing);
      var head := if p in existing then [p] else [];
      assert r == head + rest;
      forall k | 0 <= k < |r| ensures exists n :: n in libnames && r[k] == join(libpath, n) {
        if k < |head| {
          assert r[k] == join(libpath, libnames[0]);
        } else {
          assert r[k] == rest[k - |head|];
          var n :| n in libnames[1..] && rest[k - |head|] == join(libpath, n);
          assert n in libnames;
        }
      }
      forall n | n in libnames && join(libpath, n) in existing ensures join(libpath, n) in r {
        if n != libnames[0] {
          assert n in libnames[1..];
        }
      }
    }
  }

  /** The first existing join, in name order, is the first path yielded. */
  lemma {:induction false} ExistingJoinsFirst(libpath: string, libnames: seq<string>,
                                              join: (string, string) -> string, existing: set<string>, k: nat)
    requires k < |libnames| && join(libpath, libnames[k]) in existing
    requires forall j :: 0 <= j < k ==> join(libpath, libnames[j]) !in existing
    ensures ExistingJoins(libpath, libnames, join, existing) != []
    ensures ExistingJoins(libpath, libnames, join, existing)[0] == join(libpath, libnames[k])
    decreases k
  {
    if k > 0 {
      ExistingJoinsFirst(libpath, libnames[1..], join, existing, k - 1);
    }
  }

  /** The override stage keeps name order: the joins for `a + b` are those for `a`, then those for `b`. */
  lemma {:induction false} ExistingJoinsAppend(libpath: string, a: seq<string>, b: seq<string>,
                                               join: (string, string) -> string, existing: set<string>)
    ensures ExistingJoins(libpath, a + b, join, existing)
            == ExistingJoins(libpath, a, join, existing) + ExistingJoins(libpath, b, join, existing)
    decreases |a|
  {
    if a == [] {
      assert a + b == b;
    } else {
      assert (a + b)[0] == a[0] && (a + b)[1..] == a[1..] + b;
      ExistingJoinsAppend(libpath, a[1..], b, join, existing);
    }
  }

  /** One name contributes its join exactly when the joined path exists. */
  lemma ExistingJoinsSingle(libpath: string, n: string, join: (string, string) -> string, existing: set<string>)
    ensures ExistingJoins(libpath, [n], join, existing)
            == if join(libpath, n) in existing then [join(libpath, n)] else []
  {
    assert [n][1..] == [];
  }

  /** Stage 1: the override directory `GMT_LIBRARY_PATH`, when it is set and non-empty. */
  function OverrideCandidates(env: map<string, string>, libnames: seq<string>,
                              join: (string, string) -> string, existing: set<string>): seq<string>
  {
    var libpath := LibraryPath(env);
    if libpath != "" then ExistingJoins(libpath, libnames, join, existing) else []
  }

  /** `check_output(...).rstrip("\n")`. */
  function ShowLibraryPath(text: string): string
  {
    RStrip(text, IsNewline)
  }

  /**
   * Stage 2: `gmt --show-library`. A missing program and a path that does not
   * exist contribute nothing; a non-zero exit status is not caught.
   */
  function ShowLibraryCandidates(s: ShowLibrary, existing: set<string>): (r: Result<seq<string>, LoadError>)
    ensures r.Failure? <==> s.NonZeroExit?
    ensures s.NonZeroExit? ==> r.error == CalledProcessError(s.returncode)
    ensures r.Success? ==> |r.value| <= 1
    ensures r.Success? ==> (r.value != [] <==> s.Output? && ShowLibraryPath(s.text) in existing)
    ensures r.Success? && r.value != [] ==> r.value[0] == ShowLibraryPath(s.text)
  {
    match s
    case CommandNotFound => Success([])
    case NonZeroExit(code) => Failure(CalledProcessError(code))
    case Output(text) =>
      var libfullpath := ShowLibraryPath(text);
      if libfullpath in existing then Success([libfullpath]) else Success([])
  }

  /** The non-empty answers of `find_library`, in name order. */
  function FoundLibraries(libnames: seq<string>, findLibrary: string -> Option<string>): seq<string>
    decreases |libnames|
  {
    if libnames == [] then []
    else
      var rest := FoundLibraries(libnames[1..], findLibrary);
      match findLibrary(libnames[0])
      case Some(p) => (if p != "" then [p] else []) + rest
      case None => rest
  }

  /** The `find_library` stage yields only non-empty hits for library names, and every such hit. */
  lemma {:induction false} FoundLibrariesMembers(libnames: seq<string>, findLibrary: string -> Option<string>)
    ensures var r := FoundLibraries(libnames, findLibrary);
      && |r| <= |libnames|
      && (forall k :: 0 <= k < |r| ==> r[k] != "" && exists n :: n in libnames && findLibrary(n) == Some(r[k]))
      && (forall n :: n in libnames && findLibrary(n).Some? && findLibrary(n).value != "" ==>
                        findLibrary(n).value in r)
    decreases |libnames|
  {
    if libnames != [] {
      FoundLibrariesMembers(libnames[1..], findLibrary);
      var rest := FoundLibraries(libnames[1..], findLibrary);
      var r := FoundLibraries(libnames, findLibrary);
      var f := findLibrary(libnames[0]);
      var head := if f.Some? && f.value != "" then [f.value] else [];
      assert r == head + rest;
      forall k | 0 <= k < |r| ensures r[k] != "" && exists n :: n in libnames && findLibrary(n) == Some(r[k]) {
        if k < |head| {
          assert findLibrary(libnames[0]) == Some(r[k]);
        } else {
          assert r[k] == rest[k - |head|];
          var n :| n in libnames[1..] && findLibrary(n) == Some(rest[k - |head|]);
          assert n in libnames;
        }
      }
      forall n | n in libnames && findLibrary(n).Some? && findLibrary(n).value != "" ensures findLibrary(n).value in r {
        if n != libnames[0] {
          assert n in libnames[1..];
        }
      }
    }
  }

  /** The `find_library` stage keeps name order: the hits for `a + b` are those for `a`, then those for `b`. */
  lemma {:induction false} FoundLibrariesAppend(a: seq<string>, b: seq<string>, findLibrary: string -> Option<string>)
    ensures FoundLibraries(a + b, findLibrary) == FoundLibraries(a, findLibrary) + FoundLibraries(b, findLibrary)
    decreases |a|
  {
    if a == [] {
      assert a + b == b;
    } else {
      assert (a + b)[0] == a[0] && (a + b)[1..] == a[1..] + b;
      FoundLibrariesAppend(a[1..], b, findLibrary);
    }
  }

  /** One name contributes the path `find_library` gives for it, unless there is none or it is empty. */
  lemma FoundLibrariesSingle(n: string, findLibrary: string -> Option<string>)
    ensures FoundLibraries([n], findLibrary)
            == if findLibrary(n).Some? && findLibrary(n).value != "" then [findLibrary(n).value] else []
  {
    assert [n][1..] == [];
  }

  /** Stage 3: `find_library` is consulted on win32 only. */
  function WindowsCandidates(platform: string, libnames: seq<string>,
                             findLibrary: string -> Option<string>): seq<string>
  {
    if platform == "win32" then FoundLibraries(libnames, findLibrary) else []
  }

  /**
   * The generator `clib_full_names`, run to exhaustion. Stage 4 yields the bare
   * names for the system's own search.
   */
  function ClibFullNames(h: Host): (c: Candidates)
    ensures !Supported(h.platform) ==>
              c == Candidates([], Some(OSNotSupported(UnsupportedMessage(h.platform))))
    ensures Supported(h.platform) && h.showLibrary.NonZeroExit? ==>
              && c.raised == Some(CalledProcessError(h.showLibrary.returncode))
              && c.paths == OverrideCandidates(h.env, ClibNames(h.platform).value, h.join, h.existing)
    ensures Supported(h.platform) && !h.showLibrary.NonZeroExit? ==> c.raised == None
  {
    match ClibNames(h.platform)
    case Failure(e) => Candidates([], Some(e))
    case Success(libnames) =>
      var fromEnv := OverrideCandidates(h.env, libnames, h.join, h.existing);
      match ShowLibraryCandidates(h.showLibrary, h.existing)
      case Failure(e) => Candidates(fromEnv, Some(e))
      case Success(fromGmt) =>
        var fromPath := WindowsCandidates(h.platform, libnames, h.findLibrary);
        Candidates(fromEnv + fromGmt + fromPath + libnames, None)
  }

  /** The show-library stage, when `gmt` prints an existing path, contributes exactly that path. */
  lemma CandidateStages(h: Host)
    requires Supported(h.platform)
    requires h.showLibrary.Output? && ShowLibraryPath(h.showLibrary.text) in h.existing
    ensures var names := ClibNames(h.platform).value;
      ClibFullNames(h).paths
        == OverrideCandidates(h.env, names, h.join, h.existing)
           + ([ShowLibraryPath(h.showLibrary.text)] + WindowsCandidates(h.platform, names, h.findLibrary) + names)
  {
    var names := ClibNames(h.platform).value;
    var a := OverrideCandidates(h.env, names, h.join, h.existing);
    var b := [ShowLibraryPath(h.showLibrary.text)];
    var c := WindowsCandidates(h.platform, names, h.findLibrary);
    assert ShowLibraryCandidates(h.showLibrary, h.existing) == Success(b);
    assert a + b + c + names == a + (b + c + names);
  }

  /**
   * Unless `gmt --show-library` fails, the last candidates are the bare library
   * names in order, so a supported platform always has a candidate.
   */
  lemma BareNamesLast(h: Host)
    requires Supported(h.platform) && !h.showLibrary.NonZeroExit?
    ensures var names := ClibNames(h.platform).value; var ys := ClibFullNames(h).paths;
      && 1 <= |names| <= |ys|
      && ys[|ys| - |names|..] == names
  {
    var names := ClibNames(h.platform).value;
    var fromEnv := OverrideCandidates(h.env, names, h.join, h.existing);
    var fromGmt := ShowLibraryCandidates(h.showLibrary, h.existing).value;
    var fromPath := WindowsCandidates(h.platform, names, h.findLibrary);
    var ys := fromEnv + fromGmt + fromPath + names;
    assert ClibFullNames(h).paths == ys;
    assert ys[|ys| - |names|..] == names;
  }

  /** An existing file in the override directory is the first candidate, before any other stage. */
  lemma OverrideComesFirst(h: Host, k: nat)
    requires Supported(h.platform)
    requires LibraryPath(h.env) != ""
    requires var names := ClibNames(h.platform).value;
      && k < |names| && h.join(LibraryPath(h.env), names[k]) in h.existing
      && forall j :: 0 <= j < k ==> h.join(LibraryPath(h.env), names[j]) !in h.existing
    ensures var c := ClibFullNames(h);
      c.paths != [] && c.paths[0] == h.join(LibraryPath(h.env), ClibNames(h.platform).value[k])
  {
    var names := ClibNames(h.platform).value;
    ExistingJoinsFirst(LibraryPath(h.env), names, h.join, h.existing, k);
    var fromEnv := OverrideCandidates(h.env, names, h.join, h.existing);
    assert fromEnv != [];
  }

  /** The path `gmt --show-library` prints comes right after the override candidates, if it exists. */
  lemma ShowLibraryComesSecond(h: Host)
    requires Supported(h.platform)
    requires h.showLibrary.Output? && ShowLibraryPath(h.showLibrary.text) in h.existing
    ensures var c := ClibFullNames(h);
      var fromEnv := OverrideCandidates(h.env, ClibNames(h.platform).value, h.join, h.existing);
      && |fromEnv| < |c.paths|
      && c.paths[..|fromEnv|] == fromEnv
      && c.paths[|fromEnv|] == ShowLibraryPath(h.showLibrary.text)
  {
    var names := ClibNames(h.platform).value;
    var fromEnv := OverrideCandidates(h.env, names, h.join, h.existing);
    var rest := [ShowLibraryPath(h.showLibrary.text)] + WindowsCandidates(h.platform, names, h.findLibrary) + names;
    CandidateStages(h);
    assert ClibFullNames(h).paths == fromEnv + rest;
    assert (fromEnv + rest)[..|fromEnv|] == fromEnv;
    assert (fromEnv + rest)[|fromEnv|] == rest[0];
  }

  /**
   * Without `gmt`, or when the path it prints does not exist, the candidates are
   * those of the override directory, `find_library` and the bare names.
   */
  lemma ShowLibraryContributesNothing(h: Host)
    requires Supported(h.platform)
    requires h.showLibrary.CommandNotFound?
          || (h.showLibrary.Output? && ShowLibraryPath(h.showLibrary.text) !in h.existing)
    ensures var names := ClibNames(h.platform).value;
      ClibFullNames(h).paths
        == OverrideCandidates(h.env, names, h.join, h.existing)
           + WindowsCandidates(h.platform, names, h.findLibrary) + names
  {
    var names := ClibNames(h.platform).value;
    assert ShowLibraryCandidates(h.showLibrary, h.existing) == Success([]);
    assert OverrideCandidates(h.env, names, h.join, h.existing) + [] == OverrideCandidates(h.env, names, h.join, h.existing);
  }

  /** `find_library` contributes candidates on win32 only. */
  lemma FindLibraryOnlyOnWindows(h: Host)
    requires Supported(h.platform) && h.platform != "win32"
    requires !h.showLibrary.NonZeroExit?
    ensures var names := ClibNames(h.platform).value;
      ClibFullNames(h).paths
        == OverrideCandidates(h.env, names, h.join, h.existing)
           + ShowLibraryCandidates(h.showLibrary, h.existing).value + names
  {
    var names := ClibNames(h.platform).value;
    var a := OverrideCandidates(h.env, names, h.join, h.existing) + ShowLibraryCandidates(h.showLibrary, h.existing).value;
    assert a + [] == a;
  }

  // -------------------------------------------------------------- check_libgmt

  const RequiredFunctions: seq<string> := ["Create_Session", "Get_Enum", "Call_Module", "Destroy_Session"]

  /** The entry point `func` of the library, with GMT's name prefix. */
  function EntryPoint(func: string): string { "GMT_" + func }

  function CheckMessage(func: string): string
  {
    "Error loading libgmt. Couldn't access function GMT_" + func + "."
  }

  /** The first of `funcs` whose entry point `symbols` lacks. */
  function FirstMissing(funcs: seq<string>, symbols: set<string>): (r: Option<string>)
    ensures r.None? <==> forall i :: 0 <= i < |funcs| ==> EntryPoint(funcs[i]) in symbols
    ensures r.Some? ==> exists i :: 0 <= i < |funcs| && funcs[i] == r.value
                                    && EntryPoint(funcs[i]) !in symbols
                                    && forall j :: 0 <= j < i ==> EntryPoint(funcs[j]) in symbols
    decreases |funcs|
  {
    if funcs == [] then None
    else if EntryPoint(funcs[0]) !in symbols then Some(funcs[0])
    else
      var r := FirstMissing(funcs[1..], symbols);
      assert r.Some? ==> exists i :: 0 < i < |funcs| && funcs[i] == r.value
                                     && EntryPoint(funcs[i]) !in symbols
                                     && forall j :: 0 <= j < i ==> EntryPoint(funcs[j]) in symbols by {
        if r.Some? {
          var i :| 0 <= i < |funcs[1..]| && funcs[1..][i] == r.value && EntryPoint(funcs[1..][i]) !in symbols
                   && forall j :: 0 <= j < i ==> EntryPoint(funcs[1..][j]) in symbols;
          assert forall j :: 1 <= j < i + 1 ==> funcs[j] == funcs[1..][j - 1];
        }
      }
      r
  }

  /** The required function whose entry point a library lacks, if any. */
  function MissingFunction(symbols: set<string>): Option<string>
  {
    FirstMissing(RequiredFunctions, symbols)
  }

  /**
   * `check_libgmt`: None when all four entry points are there, otherwise the
   * message of the GMTCLibError it raises for the first one missing.
   */
  method CheckLibgmt(symbols: set<string>) returns (err: Option<string>)
    ensures err.None? <==> forall i :: 0 <= i < |RequiredFunctions| ==> EntryPoint(RequiredFunctions[i]) in symbols
    ensures err.Some? ==> MissingFunction(symbols).Some? && err.value == CheckMessage(MissingFunction(symbols).value)
  {
    var functions := RequiredFunctions;
    var i := 0;
    while i < |functions|
      invariant 0 <= i <= |functions|
      invariant forall j :: 0 <= j < i ==> EntryPoint(functions[j]) in symbols
    {
      var func := functions[i];
      if EntryPoint(func) !in symbols {
        var m := MissingFunction(symbols);
        assert m == Some(func);
        return Some(CheckMessage(func));
      }
      i := i + 1;
    }
    return None;
  }

  // --------------------------------------------------------------- load_libgmt

  /** The local `error` of `load_libgmt`: `True`, the last OSError, or `False` after a success. */
  datatype ErrorState = StillTrue | Last(message: string) | Cleared

  function ErrorText(e: ErrorState): string
  {
    match e
    case StillTrue => "True"
    case Last(m) => m
    case Cleared => "False"
  }

  function NotFoundMessage(tried: seq<string>, error: ErrorState): string
  {
    "Error loading the GMT shared library " + JoinWith(", ", tried) + ".\n " + ErrorText(error) + "."
  }

  /** The index of the first candidate `ctypes.CDLL` loads without an OSError (`|ys|` if none). */
  function FirstLoadable(ys: seq<string>, cdll: string -> LoadOutcome): (k: nat)
    ensures k <= |ys|
    ensures forall j :: 0 <= j < k ==> cdll(ys[j]).OSError?
    ensures k < |ys| ==> cdll(ys[k]).Loaded?
    decreases |ys|
  {
    if ys == [] then 0
    else if cdll(ys[0]).OSError? then 1 + FirstLoadable(ys[1..], cdll)
    else 0
  }

  /**
   * What trying the candidates of `c` in order gives: the first candidate that
   * loads decides (its library, or the GMTCLibError of `check_libgmt`); if none
   * loads, the generator's own exception, or else GMTCLibNotFoundError.
   */
  function LoadFrom(c: Candidates, cdll: string -> LoadOutcome): LoadResult
  {
    var ys := c.paths;
    var k := FirstLoadable(ys, cdll);
    if k < |ys| then
      var symbols := cdll(ys[k]).symbols;
      match MissingFunction(symbols)
      case Some(func) => Raised(CLibError(CheckMessage(func)))
      case None => Found(Library(ys[k], symbols))
    else if c.raised.Some? then Raised(c.raised.value)
    else Raised(CLibNotFound(NotFoundMessage(ys, if ys == [] then StillTrue else Last(cdll(ys[|ys| - 1]).message))))
  }

  /** What `load_libgmt` raises or returns on host `h`. */
  function LoadSpec(h: Host): LoadResult
  {
    LoadFrom(ClibFullNames(h), h.cdll)
  }

  /** `load_libgmt`: run the generator and try its candidates. */
  method LoadLibgmt(h: Host) returns (r: LoadResult)
    ensures r == LoadSpec(h)
  {
    r := TryCandidates(ClibFullNames(h), h.cdll);
  }

  /**
   * The loop of `load_libgmt` over a run of the generator: try each candidate
   * in turn, keeping the names tried and the last OSError.
   */
  method TryCandidates(candidates: Candidates, cdll: string -> LoadOutcome) returns (r: LoadResult)
    ensures r == LoadFrom(candidates, cdll)
  {
    var ys := candidates.paths;
    var libFullnames: seq<string> := [];
    var error := StillTrue;
    var libgmt := Library("", {});
    var i := 0;
    while i < |ys|
      invariant 0 <= i <= |ys|
      invariant libFullnames == ys[..i]
      invariant forall j :: 0 <= j < i ==> cdll(ys[j]).OSError?
      invariant error == if i == 0 then StillTrue else Last(cdll(ys[i - 1]).message)
    {
      var libname := ys[i];
      libFullnames := libFullnames + [libname];
      match cdll(libname) {
        case OSError(m) =>
          error := Last(m);
        case Loaded(symbols) =>
          var missing := CheckLibgmt(symbols);
          FirstLoadableIs(ys, cdll, i);
          if missing.Some? {
            r := Raised(CLibError(missing.value));
            return;
          }
          libgmt := Library(libname, symbols);
          error := Cleared;
          break;
      }
      i := i + 1;
    }
    if error != Cleared {
      NoneLoadable(ys, cdll);
      if candidates.raised.Some? {
        // the generator raises when the loop asks it for one more candidate
        r := Raised(candidates.raised.value);
        return;
      }
      assert libFullnames == ys;
      r := Raised(CLibNotFound(NotFoundMessage(libFullnames, error)));
      return;
    }
    r := Found(libgmt);
  }

  // ----------------------------------------------------- properties of loading

  /** An unsupported platform fails before any candidate is tried. */
  lemma UnsupportedPlatformTriesNothing(h: Host)
    requires !Supported(h.platform)
    ensures ClibFullNames(h).paths == []
    ensures LoadSpec(h) == Raised(OSNotSupported(UnsupportedMessage(h.platform)))
  {
  }

  /**
   * The result depends on `ctypes.CDLL` only up to the first candidate that
   * loads: no later candidate is tried.
   */
  lemma LaterCandidatesNotTried(h: Host, cdll: string -> LoadOutcome)
    requires var ys := ClibFullNames(h).paths; var k := FirstLoadable(ys, h.cdll);
      forall j :: 0 <= j < |ys| && j <= k ==> cdll(ys[j]) == h.cdll(ys[j])
    ensures LoadSpec(h.(cdll := cdll)) == LoadSpec(h)
  {
    var ys := ClibFullNames(h).paths;
    FirstLoadableAgrees(ys, h.cdll, cdll);
    assert ClibFullNames(h.(cdll := cdll)) == ClibFullNames(h);
  }

  lemma {:induction false} FirstLoadableAgrees(ys: seq<string>, f: string -> LoadOutcome, g: string -> LoadOutcome)
    requires forall j :: 0 <= j < |ys| && j <= FirstLoadable(ys, f) ==> g(ys[j]) == f(ys[j])
    ensures FirstLoadable(ys, g) == FirstLoadable(ys, f)
    decreases |ys|
  {
    if ys != [] {
      assert g(ys[0]) == f(ys[0]);
      if f(ys[0]).OSError? {
        forall j | 0 <= j < |ys[1..]| && j <= FirstLoadable(ys[1..], f)
          ensures g(ys[1..][j]) == f(ys[1..][j])
        {
          assert ys[1..][j] == ys[j + 1];
        }
        FirstLoadableAgrees(ys[1..], f, g);
      }
    }
  }

  /**
   * When the override directory holds a usable library, it is loaded and
   * `gmt --show-library` is never consulted: the result is the same whatever
   * that program would do, even exit with an error.
   */
  lemma OverrideLibraryWins(h: Host, k: nat, symbols: set<string>)
    requires Supported(h.platform)
    requires LibraryPath(h.env) != ""
    requires var names := ClibNames(h.platform).value;
      && k < |names| && h.join(LibraryPath(h.env), names[k]) in h.existing
      && forall j :: 0 <= j < k ==> h.join(LibraryPath(h.env), names[j]) !in h.existing
    requires h.cdll(h.join(LibraryPath(h.env), ClibNames(h.platform).value[k])) == Loaded(symbols)
    requires forall i :: 0 <= i < |RequiredFunctions| ==> EntryPoint(RequiredFunctions[i]) in symbols
    ensures LoadSpec(h) == Found(Library(h.join(LibraryPath(h.env), ClibNames(h.platform).value[k]), symbols))
  {
    OverrideComesFirst(h, k);
  }

  /**
   * A non-zero exit of `gmt --show-library` escapes `load_libgmt` once the
   * override candidates have all failed to load.
   */
  lemma ShowLibraryFailureEscapes(h: Host)
    requires Supported(h.platform) && h.showLibrary.NonZeroExit?
    requires var fromEnv := OverrideCandidates(h.env, ClibNames(h.platform).value, h.join, h.existing);
      forall j :: 0 <= j < |fromEnv| ==> h.cdll(fromEnv[j]).OSError?
    ensures LoadSpec(h) == Raised(CalledProcessError(h.showLibrary.returncode))
  {
  }

  /**
   * A library that loads but lacks an entry point ends the search with
   * GMTCLibError, however good the later candidates are.
   */
  lemma MissingSymbolEscapes(h: Host, k: nat)
    requires var ys := ClibFullNames(h).paths;
      && k < |ys| && (forall j :: 0 <= j < k ==> h.cdll(ys[j]).OSError?)
      && h.cdll(ys[k]).Loaded? && MissingFunction(h.cdll(ys[k]).symbols).Some?
    ensures LoadSpec(h) == Raised(CLibError(CheckMessage(MissingFunction(h.cdll(ClibFullNames(h).paths[k]).symbols).value)))
  {
    var ys := ClibFullNames(h).paths;
    FirstLoadableIs(ys, h.cdll, k);
  }

  lemma NoneLoadable(ys: seq<string>, cdll: string -> LoadOutcome)
    requires forall j :: 0 <= j < |ys| ==> cdll(ys[j]).OSError?
    ensures FirstLoadable(ys, cdll) == |ys|
  {
  }

  lemma {:induction false} FirstLoadableIs(ys: seq<string>, cdll: string -> LoadOutcome, k: nat)
    requires k < |ys| && (forall j :: 0 <= j < k ==> cdll(ys[j]).OSError?) && cdll(ys[k]).Loaded?
    ensures FirstLoadable(ys, cdll) == k
  {
  }

  /**
   * When every candidate raises OSError on a supported platform and `gmt`
   * did not fail, GMTCLibNotFoundError lists every candidate in order and the
   * last OSError (never the initial `True`).
   */
  lemma NotFoundListsEveryCandidate(h: Host)
    requires Supported(h.platform) && !h.showLibrary.NonZeroExit?
    requires var ys := ClibFullNames(h).paths; forall j :: 0 <= j < |ys| ==> h.cdll(ys[j]).OSError?
    ensures var ys := ClibFullNames(h).paths;
      && ys != []
      && LoadSpec(h) == Raised(CLibNotFound(
           "Error loading the GMT shared library " + JoinWith(", ", ys) + ".\n "
           + h.cdll(ys[|ys| - 1]).message + "."))
  {
    BareNamesLast(h);
  }
}
