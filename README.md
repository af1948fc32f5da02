# PyGMT: library locator and x2sys command assembly

A Dafny model of two parts of PyGMT, the Python interface to the Generic
Mapping Tools (GMT).

1. **The GMT shared-library locator** (`pygmt/clib/loading.py`).
   - `clib_names` maps the platform string to the library file names.
   - `clib_full_names` is a generator. It yields candidate paths in priority order:
     1. joins under `GMT_LIBRARY_PATH` that exist;
     2. the path printed by `gmt --show-library`;
     3. the Windows `find_library` hits;
     4. the bare names.
   - `check_libgmt` requires the four `GMT_` entry points.
   - `load_libgmt` tries the candidates in order. It records each name it
     tries and keeps the last `OSError`.

   The environment, the file-existence test, `os.path.join`, the subprocess,
   `find_library` and `ctypes.CDLL` are fields of a `Host` value. The
   generator is a `Candidates` value: the paths it yields, then the exception
   it raises once they are exhausted, if any. This keeps its laziness: a
   failing `gmt --show-library` surfaces only after every override path has
   failed to load.

2. **The crossover command assembly** (`pygmt/x2sys.py`).
   - The `x2sys_init` argument string.
   - The suffix `x2sys_cross` reads from the last line of the tag file.
   - The dispatch of each track to a pass-through or a temporary-file context.
   - The temporary track files, which `tempfile_from_dftrack` writes and
     always removes, modelled as a `FileSystem` class over a `set<string>`.
   - The `x2sys_cross` argument string.
   - The output-file default, the return rule and the first-column rename.

   Inputs to the model:
   - `build_arg_string(kwargs)`, the successive results of `unique_name()`,
     the name of the `GMTTempFile`, the error `call_module` raises, and the
     table `read_csv` parses are inputs (`CrossEnv`).
   - The environment, the keyword arguments and the tag-file reader are
     also inputs (`TagSource`).

Python's string operations are modelled in module `Text`: `join`, `split(sep)`,
`split()`, `strip`, `rstrip`, slicing and `isspace`. `str` ordering and `sorted`
are in module `Order`.

## Model

| member | source | states |
|---|---|---|
| Loading.ClibNames | pygmt/clib/loading.py:54-78 | `["libgmt.so"]` for names starting with `linux` or `freebsd`; `["libgmt.dylib"]` for exactly `darwin`; `["gmt.dll","gmt_w64.dll","gmt_w32.dll"]` for exactly `win32`; for any other name, a GMTOSError naming the platform. Success holds exactly on those platforms. |
| Loading.ExistingJoinsMembers | pygmt/clib/loading.py:103-108 | The override stage yields at most one path per library name, only existing joins of the library path with a library name, and every existing join. |
| Loading.ExistingJoinsAppend | pygmt/clib/loading.py:105-108 | The override joins come in library-name order: the joins for `a + b` are those for `a`, then those for `b`. |
| Loading.ExistingJoinsSingle | pygmt/clib/loading.py:106-108 | One name contributes its join exactly when the joined path exists. |
| Loading.ExistingJoinsFirst | pygmt/clib/loading.py:105-108 | The first override candidate joins the first library name, in name order, whose join exists. |
| Loading.ShowLibraryCandidates | pygmt/clib/loading.py:110-118 | A non-zero exit raises CalledProcessError with its code. Otherwise the stage yields at most one path. It yields one exactly when the command ran and its output, with trailing newlines removed, names an existing file, and that path is the one yielded. |
| Loading.FoundLibrariesMembers | pygmt/clib/loading.py:120-125 | The `find_library` stage yields at most one path per library name, only non-empty hits for library names, and every such hit. |
| Loading.FoundLibrariesAppend | pygmt/clib/loading.py:122-125 | The `find_library` hits come in library-name order: the hits for `a + b` are those for `a`, then those for `b`. |
| Loading.FoundLibrariesSingle | pygmt/clib/loading.py:123-125 | One name contributes the path `find_library` returns for it, unless there is none or it is empty. |
| Loading.ClibFullNames | pygmt/clib/loading.py:81-129 | An unsupported platform yields nothing and raises GMTOSError. A non-zero `gmt` exit raises CalledProcessError after the override paths. Otherwise the generator raises nothing. |
| Loading.BareNamesLast | pygmt/clib/loading.py:127-129 | Unless `gmt --show-library` exits non-zero, the last `\|libnames\|` candidates are the bare library names in order, so there is at least one candidate. |
| Loading.OverrideComesFirst | pygmt/clib/loading.py:103-108 | With a non-empty `GMT_LIBRARY_PATH`, the first existing override join is the first candidate. |
| Loading.CandidateStages | pygmt/clib/loading.py:103-129 | When `gmt --show-library` prints an existing path, the candidates are the override joins, then that one path, then the `find_library` hits, then the bare names. |
| Loading.ShowLibraryComesSecond | pygmt/clib/loading.py:103-118 | The show-library path follows exactly the override joins. |
| Loading.ShowLibraryContributesNothing | pygmt/clib/loading.py:110-118 | A missing `gmt` command, or a printed path that does not exist, adds no candidate. |
| Loading.FindLibraryOnlyOnWindows | pygmt/clib/loading.py:120-129 | Off Windows, the bare names come right after the override and show-library candidates. |
| Loading.FirstMissing | pygmt/clib/loading.py:151-155 | None exactly when every entry point is present. Otherwise it returns the first function, in list order, whose entry point is absent, with all earlier ones present. |
| Loading.CheckLibgmt | pygmt/clib/loading.py:132-155 | Succeeds exactly when `GMT_Create_Session`, `GMT_Get_Enum`, `GMT_Call_Module` and `GMT_Destroy_Session` are all present. Otherwise it gives the GMTCLibError message naming the first missing one. |
| Loading.FirstLoadable | pygmt/clib/loading.py:37-45 | The index of the first candidate whose load does not raise OSError: every earlier one raised it. |
| Loading.TryCandidates | pygmt/clib/loading.py:35-51 | The load loop (each name recorded before it is tried, the last error kept, a break on success) gives exactly the outcome of the candidate specification. |
| Loading.LoadLibgmt | pygmt/clib/loading.py:16-51 | `load_libgmt` is the load loop run over the generator's candidates. |
| Loading.UnsupportedPlatformTriesNothing | pygmt/clib/loading.py:76-77 | On an unsupported platform no candidate exists and GMTOSError escapes. |
| Loading.LaterCandidatesNotTried | pygmt/clib/loading.py:37-43 | Changing how candidates after the first loadable one would load does not change the outcome. |
| Loading.FirstLoadableAgrees | pygmt/clib/loading.py:37-43 | Two loaders that agree up to the first loadable candidate pick the same candidate. |
| Loading.OverrideLibraryWins | pygmt/clib/loading.py:37-43 | A complete library reached first through `GMT_LIBRARY_PATH` is the one returned. |
| Loading.ShowLibraryFailureEscapes | pygmt/clib/loading.py:110-118 | When every override path fails with OSError and `gmt` exits non-zero, CalledProcessError escapes `load_libgmt`. |
| Loading.MissingSymbolEscapes | pygmt/clib/loading.py:40-44 | When the first loadable library lacks an entry point, GMTCLibError escapes. The loop does not go on to the next candidate. |
| Loading.NoneLoadable | pygmt/clib/loading.py:37-45 | When every candidate raises OSError, none is loadable. |
| Loading.FirstLoadableIs | pygmt/clib/loading.py:37-43 | The first candidate that loads after a run of OSErrors is the loadable one. |
| Loading.NotFoundListsEveryCandidate | pygmt/clib/loading.py:46-50 | When every candidate raises OSError, GMTCLibNotFoundError lists every candidate in order, joined by `", "`, then the last OSError. The message never shows the initial `True`. |
| X2sys.X2sysInit | pygmt/x2sys.py:161-163 | The module is `x2sys_init`. Its argument string is `tag + " " + build_arg_string(kwargs)`, and it splits into the tag followed by the options. |
| X2sys.MaxSuffixItem | pygmt/x2sys.py:313-315 | The greatest `-E`/`-D` item in string order. It is None exactly when there is none. |
| X2sys.MaxSuffixItemPermutation | pygmt/x2sys.py:313 | Sorting the items first does not change their greatest suffix item. |
| X2sys.ChooseSuffix | pygmt/x2sys.py:313-315 | The sort-then-overwrite loop chooses the greatest `-E`/`-D` item minus its first two characters. It chooses nothing when there is none. |
| X2sys.SuffixPrefersE | pygmt/x2sys.py:313-315 | Any `-E` item is preferred over every `-D` item. |
| X2sys.EAfterD | pygmt/x2sys.py:314 | Every `-E` item sorts after every `-D` item. |
| X2sys.SuffixNamesItem | pygmt/x2sys.py:315 | The suffix is what follows `-E` or `-D` in one of the items. |
| X2sys.TagFileSuffix | pygmt/x2sys.py:305-315 | A missing `X2SYS_HOME` or tag keyword raises KeyError. An unreadable tag file raises. The suffix comes from the last line of the stripped tag text. No matching item leaves `suffix` unbound, which is an error. |
| X2sys.TempTrackNameLayout | pygmt/x2sys.py:45 | A temporary track name is `track-`, the first (at most) 7 characters of `unique_name()`, a dot, and the suffix. |
| X2sys.TempTrackNamesCollide | pygmt/x2sys.py:45 | Two temporary tracks with one suffix share a name exactly when their unique names share the first 7 characters. |
| X2sys.FileSystem.EnterTempTrack | pygmt/x2sys.py:44-52 | Entering the context writes the track file under its temporary name and yields that name. |
| X2sys.FileSystem.ExitTempTrack | pygmt/x2sys.py:53-54 | Exiting removes the file. Removal fails exactly when the file is not there. |
| X2sys.Dispatch | pygmt/x2sys.py:299-320 | Dispatch succeeds exactly when every track is a file or a table whose suffix is found. Then each context is the one its track gets, in input order. |
| X2sys.DispatchFirstFailure | pygmt/x2sys.py:300-320 | A failed dispatch reports the error of the first failing track. |
| X2sys.DispatchKeepsFailure | pygmt/x2sys.py:300-320 | Once a track fails, later tracks do not matter. |
| X2sys.UnrecognizedTrackStops | pygmt/x2sys.py:319-320 | A track that is neither a file nor a table makes `x2sys_cross` raise. When only file tracks come before it, the error is GMTInvalidInput naming its type. |
| X2sys.FileContexts | pygmt/x2sys.py:299-320 | The dispatch loop returns the contexts, or the first error, as the dispatch specification gives them. |
| X2sys.EnteredNamesLayout | pygmt/x2sys.py:299-324 | `fnames` keeps a file track's own path. A table track gets a `track-` name of at most 7 unique characters that ends in `.` and its suffix. The table tracks' names are exactly the temporary files written. |
| X2sys.TempsBeforeIncreases | pygmt/x2sys.py:324 | Each table track takes its name from its own `unique_name()` call. The calls are numbered in entry order. |
| X2sys.TempNamesMember | pygmt/x2sys.py:324 | A name is among the temporary files exactly when some table track's context wrote it. |
| X2sys.TempNamesGrow | pygmt/x2sys.py:324 | Entering one more context adds its temporary file, if any. |
| X2sys.DistinctTempNamesStep | pygmt/x2sys.py:53-54 | Exiting one more context keeps the removals clean exactly when no later-entered track reused its name. |
| X2sys.CleanupFailsOnSharedPrefix | pygmt/x2sys.py:44-54 | With one suffix for all table tracks, the removals all succeed exactly when no two `unique_name()` calls share their first 7 characters. |
| X2sys.DispatchOneSuffix | pygmt/x2sys.py:307-318 | Every table track of a successful dispatch gets the one suffix that the tag-file lookup gives. |
| X2sys.EnterContexts | pygmt/x2sys.py:323-324 | Entering the contexts in order yields `fnames` and writes exactly the temporary track files. |
| X2sys.ExitContexts | pygmt/x2sys.py:53-54 | Leaving the ExitStack removes every temporary track file. Cleanup fails exactly when two temporary tracks shared a name. |
| X2sys.CrossArgsLayout | pygmt/x2sys.py:327 | The `x2sys_cross` argument string splits into the track file names in input order, then the options, then `->outfile` as the last token. |
| X2sys.RenameFirstColumn | pygmt/x2sys.py:341 | Fails exactly when the table has no columns. Otherwise the first column name loses its first two characters. Other names are unchanged unless they equal the first one. The rows are kept. |
| X2sys.HeaderPrefixRemoved | pygmt/x2sys.py:340-341 | A first column `# name` reads back as `name`. |
| X2sys.AfterCall | pygmt/x2sys.py:322-345 | A cleanup failure takes precedence over everything else. Then an error from `call_module` propagates. Output to the temporary file is then read back: a failed read or a table without columns raises, otherwise the renamed table is returned. None is returned exactly when the output went elsewhere and nothing raised. |
| X2sys.X2sysCross | pygmt/x2sys.py:298-345 | A failed dispatch raises before `call_module` and touches no file. Otherwise `call_module("x2sys_cross", …)` gets the assembled argument string, every temporary track file is removed, and the result follows the return rule. |
| X2sys.NoTempTrackLeft | pygmt/x2sys.py:44-54 | After `x2sys_cross`, none of the temporary track files it wrote remains. |
| X2sys.ReturnRule | pygmt/x2sys.py:325-343 | When cleanup and the module call succeed, no `outfile` means the temporary output file is used and the renamed table is returned. An `outfile` other than the temporary file makes the function return None. |
| Text.SplitJoin | pygmt/x2sys.py:327 | Splitting a space-joined list of space-free words gives the list back. |
| Text.SplitAround | pygmt/x2sys.py:311 | `split(sep)` of `a + sep + b` is the split of `a` followed by the split of `b`. |
| Text.LastPiece | pygmt/x2sys.py:311 | `split("\n")[-1]` is the final newline-free segment of the text. |
| Text.StripIsMiddle | pygmt/x2sys.py:310 | `strip()` leaves a middle segment `s[i..j]`, returned as witnesses: everything before `i` and from `j` on is whitespace, and the result neither starts nor ends with whitespace. |
| Text.Words | pygmt/x2sys.py:313 | `split()` gives non-empty words without whitespace. |
| Text.WordsAroundSpace | pygmt/x2sys.py:313 | `split()` cuts at every white-space character: the words of `a + [c] + b` are those of `a`, then those of `b`. |
| Text.WordsSingle | pygmt/x2sys.py:313 | `split()` of one non-empty word without white space is that word. |
| Text.WordsBlank | pygmt/x2sys.py:313 | `split()` of white space alone gives no words. |
| Text.WordsJoin | pygmt/x2sys.py:313 | `split()` of a space-joined list of words gives the list back. |
| Text.RStrip | pygmt/clib/loading.py:112-114 | `rstrip("\n")` removes exactly the trailing newlines. |
| Text.DropFront | pygmt/x2sys.py:315 | `s[2:]` is what follows the first two characters (empty for shorter strings). |
| Text.TakeFront | pygmt/x2sys.py:45 | `s[:7]` is the prefix of length at most 7. |
| Order.Sort | pygmt/x2sys.py:313 | `sorted` gives an ordered permutation of its input. |
| Order.LexLeTotal | pygmt/x2sys.py:313 | Python's `str` order is total. |
| Order.LexLeAntisymmetric | pygmt/x2sys.py:313 | Python's `str` order is antisymmetric. |
| Order.LexLeTransitive | pygmt/x2sys.py:313 | Python's `str` order is transitive. |

## Left out

- Foreign calls are parameters, not implementations: `ctypes.CDLL`, `subprocess.check_output`, `os.path.exists`, `os.path.join` and `ctypes.util.find_library`. Only the outcomes `load_libgmt` distinguishes are modelled: an OSError message or the set of exported symbols.
- The subprocess is modelled as command missing, non-zero exit, or output text. Other errors such as PermissionError or a decoding error are not modelled.
- `assert os.path.exists(...)` (pygmt/clib/loading.py:115) is modelled as written. Under `python -O` the assert is stripped, and the show-library path would then be yielded unconditionally; that case is not modelled.
- The GMT session and virtual-file machinery (`Session`, `call_module`) is not part of this model. The error `call_module` raises is an input, and only the module name and argument string of each call are recorded.
- `build_arg_string`, `use_alias`, `kwargs_to_strings`, `fmt_docstring`, `data_kind`, `dummy_context`, `unique_name` and `GMTTempFile` are not part of this model. Their results are inputs: `build_arg_string(kwargs)` is a string, `unique_name()` is a function of the call count, and the kind of each track is its `Track` constructor. The alias tables are not modelled.
- pandas I/O is not modelled. `to_csv` always succeeds and only adds the file name. `read_csv` with its header, comment and date handling is an input table, so a failing read is one error case. Only the column rename is modelled.
- Reading `$X2SYS_HOME/TAG/TAG.tag` is a reader function from home directory and tag to the file text, or to nothing when the read raises.
- X2sys.ExitContexts: the file removed by `GMTTempFile` on exit is not modelled, only the temporary track files.
- X2sys.X2sysCross: the default `tracks=None` (pygmt/x2sys.py:181) makes `for track in tracks` raise TypeError. It is not modelled: `tracks` is always a list of tracks. A lone table or file name, which Python would iterate element by element, is not modelled. A failure inside `to_csv` (pygmt/x2sys.py:46-51) is not modelled either: `tmpfilename` is already bound, so `finally` removes the partly written file, or raises FileNotFoundError in place of the `to_csv` error when nothing was written. Nor is a failure of line 45 itself, in `unique_name()` or the f-string, after which `finally` raises UnboundLocalError.
- X2sys.TagFileSuffix: a later table track rereads the same tag file and gets the same suffix. The model therefore does not keep a `suffix` variable bound by an earlier table track across iterations.
- The exception class hierarchy is not part of this model. The errors are distinct outcomes (`LoadError`, `CrossError`), and GMTCLibError is not treated as an OSError.
- Loading.LoadLibgmt: the loop is in the helper method Loading.TryCandidates, which runs over a candidate value instead of an interleaved generator. The laziness is kept by ordering: the generator's exception is raised only after every yielded path has failed with OSError.
- `pygmt/src/contour.py` and `examples/gallery/line/vectors.py` are not part of this model. They only drive the figure API through a session.
