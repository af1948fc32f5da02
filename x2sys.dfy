/**
 * The command assembly around GMT's x2sys crossover modules (pygmt/x2sys.py):
 * the suffix read from the tag file, the temporary track files and their
 * removal, the dispatch on the kind of each track, the argument strings of
 * `x2sys_init` and `x2sys_cross`, and the value `x2sys_cross` returns.
 *
 * The native session, `build_arg_string`, `unique_name`, `GMTTempFile` and the
 * pandas reader are inputs: their results are parameters.
 */
module X2sys {
  import opened Wrappers
  import opened Text
  import opened Order

  /** A pandas table: column names and rows (the cells are not interpreted). */
  datatype Table = Table(columns: seq<string>, rows: seq<seq<string>>)

  /** A module call handed to the native session: module name and argument string. */
  datatype ModuleCall = ModuleCall(name: string, args: string)

  // ----------------------------------------------------------------- x2sys_init

  /** `x2sys_init(tag, **kwargs)`, given `builtArgs == build_arg_string(kwargs)`. */
  function X2sysInit(tag: string, builtArgs: string): (call: ModuleCall)
    ensures call.name == "x2sys_init"
    ensures call.args == tag + " " + builtArgs
    ensures ' ' !in tag ==> Split(call.args, ' ') == [tag] + Split(builtArgs, ' ')
  {
    var argStr := JoinWith(" ", [tag, builtArgs]);
    assert [tag, builtArgs][1..] == [builtArgs];
    assert JoinWith(" ", [builtArgs]) == builtArgs;
    assert argStr == tag + [' '] + builtArgs;
    SplitAround(tag, builtArgs, ' ');
    if ' ' !in tag then SplitWithoutSeparator(tag, ' '); ModuleCall("x2sys_init", argStr)
    else ModuleCall("x2sys_init", argStr)
  }

  // ------------------------------------------------------------ tag file suffix

  /** `item.startswith(("-E", "-D"))`. */
  predicate IsSuffixItem(item: string)
  {
    "-E" <= item || "-D" <= item
  }

  /** The items of the tag file's last line: `text.strip().split("\n")[-1].split()`. */
  function TagItems(tagText: string): seq<string>
  {
    Words(LastPiece(Strip(tagText), '\n'))
  }

  lemma UpperBoundCarries(init: seq<string>, m: string, x: string)
    requires forall k :: 0 <= k < |init| && IsSuffixItem(init[k]) ==> LexLe(init[k], m)
    requires LexLe(m, x)
    ensures forall k :: 0 <= k < |init| && IsSuffixItem(init[k]) ==> LexLe(init[k], x)
  {
    forall k | 0 <= k < |init| && IsSuffixItem(init[k]) ensures LexLe(init[k], x) {
      LexLeTransitive(init[k], m, x);
    }
  }

  /** The greatest suffix item of `items` in Python's string order, if there is one. */
  function MaxSuffixItem(items: seq<string>): (r: Option<string>)
    ensures r.None? <==> forall k :: 0 <= k < |items| ==> !IsSuffixItem(items[k])
    ensures r.Some? ==> r.value in items && IsSuffixItem(r.value)
    ensures r.Some? ==> forall k :: 0 <= k < |items| && IsSuffixItem(items[k]) ==> LexLe(items[k], r.value)
    decreases |items|
  {
    if items == [] then None
    else
      var init := items[..|items| - 1];
      var x := items[|items| - 1];
      var m := MaxSuffixItem(init);
      assert items == init + [x];
      if !IsSuffixItem(x) then m
      else if m.None? then
        LexLeReflexive(x);
        Some(x)
      else if LexLe(m.value, x) then
        UpperBoundCarries(init, m.value, x);
        LexLeReflexive(x);
        Some(x)
      else
        LexLeTotal(m.value, x);
        m
  }

  /** Reordering the items does not change their greatest suffix item. */
  lemma MaxSuffixItemPermutation(a: seq<string>, b: seq<string>)
    requires multiset(a) == multiset(b)
    ensures MaxSuffixItem(a) == MaxSuffixItem(b)
  {
    var ma, mb := MaxSuffixItem(a), MaxSuffixItem(b);
    if ma.Some? {
      var v := ma.value;
      assert v in multiset(b);
      var kb :| 0 <= kb < |b| && b[kb] == v;
      assert mb.Some?;
      var w := mb.value;
      assert w in multiset(a);
      var ka :| 0 <= ka < |a| && a[ka] == w;
      LexLeAntisymmetric(v, w);
    }
  }

  /** Python's `item[2:]` applied to the chosen item. */
  function SuffixOf(item: Option<string>): Option<string>
  {
    match item
    case None => None
    case Some(s) => Some(DropFront(s, 2))
  }

  /** An `-E` item, whatever follows it, sorts after every `-D` item. */
  lemma {:induction false} EAfterD(e: string, d: string)
    requires "-E" <= e && "-D" <= d
    ensures !LexLe(e, d)
  {
    assert e[0] == d[0] == '-';
    assert e[1..][0] == 'E' && d[1..][0] == 'D';
  }

  /**
   * The suffix comes from an `-E` item whenever the line holds one: any `-E`
   * item is preferred over every `-D` item.
   */
  lemma SuffixPrefersE(items: seq<string>, k: nat)
    requires k < |items| && "-E" <= items[k]
    ensures MaxSuffixItem(items).Some? && "-E" <= MaxSuffixItem(items).value
  {
    var m := MaxSuffixItem(items).value;
    assert IsSuffixItem(items[k]);
    if !("-E" <= m) {
      EAfterD(items[k], m);
    }
  }

  /** The chosen suffix is what follows `-E` or `-D` in one of the items. */
  lemma SuffixNamesItem(items: seq<string>)
    requires MaxSuffixItem(items).Some?
    ensures var s := SuffixOf(MaxSuffixItem(items)).value;
      ("-E" + s) in items || ("-D" + s) in items
  {
    var m := MaxSuffixItem(items).value;
    var s := DropFront(m, 2);
    if "-E" <= m {
      assert "-E" + s == m;
    } else {
      assert "-D" + s == m;
    }
  }

  /** Where the tag file comes from: `os.environ`, the keyword arguments and the file reader. */
  datatype TagSource = TagSource(
    env: map<string, string>,
    kwargs: map<string, string>,
    readTag: (string, string) -> Option<string>)  // $X2SYS_HOME/TAG/TAG.tag, or None if it cannot be read

  /** Why `x2sys_cross` raised. */
  datatype CrossError =
    | InvalidInput(message: string)  // GMTInvalidInput for a track that is neither a file nor a table
    | KeyError(key: string)          // X2SYS_HOME unset or no tag keyword
    | TagFileUnreadable              // read_text raised
    | SuffixUnbound                  // no -E or -D item: `suffix` was never assigned
    | CleanupFailed                  // os.remove found no file: two temporary tracks shared a name
    | ModuleFailed(message: string)  // call_module raised
    | ReadFailed                     // read_csv raised
    | NoColumns                      // the table read back has no first column

  /** The suffix of the temporary track files, or why it cannot be found. */
  function TagSuffix(src: TagSource): Result<string, CrossError>
  {
    if "X2SYS_HOME" !in src.env then Failure(KeyError("X2SYS_HOME"))
    else if "T" !in src.kwargs then Failure(KeyError("T"))
    else match src.readTag(src.env["X2SYS_HOME"], src.kwargs["T"])
      case None => Failure(TagFileUnreadable)
      case Some(text) =>
        match SuffixOf(MaxSuffixItem(TagItems(text)))
        case None => Failure(SuffixUnbound)
        case Some(s) => Success(s)
  }

  /** Over sorted items, each further suffix item is the new greatest one. */
  lemma MaxSuffixItemSortedStep(items: seq<string>, i: nat)
    requires Sorted(items) && i < |items|
    ensures MaxSuffixItem(items[..i + 1])
            == if IsSuffixItem(items[i]) then Some(items[i]) else MaxSuffixItem(items[..i])
  {
    var prefix := items[..i + 1];
    assert prefix[..i] == items[..i];
    assert prefix[i] == items[i];
    var m := MaxSuffixItem(items[..i]);
    if IsSuffixItem(items[i]) && m.Some? {
      var k :| 0 <= k < i && items[k] == m.value;
    }
  }

  /**
   * The suffix loop of `x2sys_cross`: sort the items of the tag file's last
   * line and keep overwriting `suffix` with `item[2:]` for each `-E`/`-D` item.
   */
  method ChooseSuffix(lastline: string) returns (suffix: Option<string>)
    ensures suffix == SuffixOf(MaxSuffixItem(Words(lastline)))
  {
    var items := Sort(Words(lastline));
    suffix := None;
    ghost var chosen: Option<string> := None;
    for i := 0 to |items|
      invariant chosen == MaxSuffixItem(items[..i])
      invariant suffix == SuffixOf(chosen)
    {
      var item := items[i];
      MaxSuffixItemSortedStep(items, i);
      if IsSuffixItem(item) {
        suffix := Some(DropFront(item, 2));
        chosen := Some(item);
      }
    }
    assert items[..|items|] == items;
    MaxSuffixItemPermutation(items, Words(lastline));
  }

  /** The suffix lookup of `x2sys_cross`: locate and read the tag file, then choose. */
  method TagFileSuffix(src: TagSource) returns (suffix: Result<string, CrossError>)
    ensures suffix == TagSuffix(src)
  {
    if "X2SYS_HOME" !in src.env { return Failure(KeyError("X2SYS_HOME")); }
    if "T" !in src.kwargs { return Failure(KeyError("T")); }
    var text := src.readTag(src.env["X2SYS_HOME"], src.kwargs["T"]);
    if text.None? { return Failure(TagFileUnreadable); }
    var lastline := LastPiece(Strip(text.value), '\n');
    var found := ChooseSuffix(lastline);
    if found.None? { return Failure(SuffixUnbound); }
    return Success(found.value);
  }

  // ------------------------------------------------------------- temporary tracks

  /** `f"track-{unique_name()[:7]}.{suffix}"`. */
  function TempTrackName(unique: string, suffix: string): string
  {
    "track-" + TakeFront(unique, 7) + "." + suffix
  }

  /** The name is `track-`, at most 7 characters of the unique name, a dot and the suffix. */
  lemma TempTrackNameLayout(unique: string, suffix: string)
    ensures var name := TempTrackName(unique, suffix);
      && "track-" <= name
      && |name| == 6 + |TakeFront(unique, 7)| + 1 + |suffix|
      && |TakeFront(unique, 7)| <= 7
      && name[6..|name| - |suffix| - 1] == TakeFront(unique, 7)
      && name[|name| - |suffix| - 1..] == "." + suffix
  {
    var name := TempTrackName(unique, suffix);
    assert name[6..|name| - |suffix| - 1] == TakeFront(unique, 7);
    assert name[|name| - |suffix| - 1..] == "." + suffix;
  }

  /** Two temporary tracks with one suffix share a name exactly when their unique names share 7 leading characters. */
  lemma TempTrackNamesCollide(u1: string, u2: string, suffix: string)
    ensures TempTrackName(u1, suffix) == TempTrackName(u2, suffix) <==> TakeFront(u1, 7) == TakeFront(u2, 7)
  {
    var n1, n2 := TempTrackName(u1, suffix), TempTrackName(u2, suffix);
    TempTrackNameLayout(u1, suffix);
    TempTrackNameLayout(u2, suffix);
    if n1 == n2 {
      assert n1[6..|n1| - |suffix| - 1] == n2[6..|n2| - |suffix| - 1];
    }
  }

  /** The files on disk, as far as the temporary track files are concerned. */
  class FileSystem {
    var files: set<string>

    constructor (initial: set<string>)
      ensures files == initial
    {
      files := initial;
    }

    /** Entering `tempfile_from_dftrack`: `to_csv` writes the track under its temporary name. */
    method EnterTempTrack(unique: string, suffix: string) returns (name: string)
      modifies this
      ensures name == TempTrackName(unique, suffix)
      ensures files == old(files) + {name}
    {
      name := TempTrackName(unique, suffix);
      files := files + {name};
    }

    /** Leaving `tempfile_from_dftrack`: `os.remove`, which fails (false) when there is no such file. */
    method ExitTempTrack(name: string) returns (removed: bool)
      modifies this
      ensures removed == (name in old(files))
      ensures files == old(files) - {name}
    {
      removed := name in files;
      files := files - {name};
    }
  }

  // ----------------------------------------------------------------- dispatch

  /** A track as `data_kind` classifies it: a file name, a table, or anything else. */
  datatype Track = FileTrack(path: string) | MatrixTrack(table: Table) | OtherTrack(typeName: string)

  /** An entry of `file_contexts`: `dummy_context(path)` or `tempfile_from_dftrack(table, suffix)`. */
  datatype Context = Dummy(path: string) | TempTrack(table: Table, suffix: string)

  /**
   * The context one track gets, or the error it raises; `suffix` is what the
   * suffix lookup gives, which only a table consults.
   */
  function ContextFor(track: Track, suffix: Result<string, CrossError>): Result<Context, CrossError>
  {
    match track
    case FileTrack(path) => Success(Dummy(path))
    case MatrixTrack(table) =>
      (match suffix
       case Success(s) => Success(TempTrack(table, s))
       case Failure(e) => Failure(e))
    case OtherTrack(typeName) => Failure(InvalidInput("Unrecognized data type: " + typeName))
  }

  /** The list `file_contexts`, built track by track; the first failing track ends it. */
  function Dispatch(tracks: seq<Track>, suffix: Result<string, CrossError>): (r: Result<seq<Context>, CrossError>)
    ensures r.Success? <==> forall k :: 0 <= k < |tracks| ==> ContextFor(tracks[k], suffix).Success?
    ensures r.Success? ==> |r.value| == |tracks|
    ensures r.Success? ==> forall k :: 0 <= k < |tracks| ==> ContextFor(tracks[k], suffix) == Success(r.value[k])
    decreases |tracks|
  {
    if tracks == [] then Success([])
    else
      var init := tracks[..|tracks| - 1];
      var last := tracks[|tracks| - 1];
      assert forall k :: 0 <= k < |init| ==> init[k] == tracks[k];
      match Dispatch(init, suffix)
      case Failure(e) => Failure(e)
      case Success(cs) =>
        match ContextFor(last, suffix)
        case Failure(e) => Failure(e)
        case Success(c) => Success(cs + [c])
  }

  /** A failed dispatch reports the error of the first track that fails. */
  lemma {:induction false} DispatchFirstFailure(tracks: seq<Track>, suffix: Result<string, CrossError>)
    requires Dispatch(tracks, suffix).Failure?
    ensures exists k :: && 0 <= k < |tracks|
                        && ContextFor(tracks[k], suffix) == Failure(Dispatch(tracks, suffix).error)
                        && forall j :: 0 <= j < k ==> ContextFor(tracks[j], suffix).Success?
    decreases |tracks|
  {
    var init := tracks[..|tracks| - 1];
    assert forall j :: 0 <= j < |init| ==> init[j] == tracks[j];
    if Dispatch(init, suffix).Failure? {
      DispatchFirstFailure(init, suffix);
      var k :| && 0 <= k < |init|
               && ContextFor(init[k], suffix) == Failure(Dispatch(init, suffix).error)
               && forall j :: 0 <= j < k ==> ContextFor(init[j], suffix).Success?;
      assert ContextFor(tracks[k], suffix) == Failure(Dispatch(tracks, suffix).error);
    } else {
      var k := |tracks| - 1;
      assert ContextFor(tracks[k], suffix) == Failure(Dispatch(tracks, suffix).error);
    }
  }

  /**
   * A track that is neither a file nor a table makes the dispatch fail; when
   * only file tracks precede it, the error is the `GMTInvalidInput` naming its type.
   */
  lemma UnrecognizedTrackStops(tracks: seq<Track>, suffix: Result<string, CrossError>, k: nat)
    requires k < |tracks| && tracks[k].OtherTrack?
    ensures Dispatch(tracks, suffix).Failure?
    ensures (forall j :: 0 <= j < k ==> tracks[j].FileTrack?) ==>
              Dispatch(tracks, suffix).error == InvalidInput("Unrecognized data type: " + tracks[k].typeName)
  {
    assert !ContextFor(tracks[k], suffix).Success?;
    if forall j :: 0 <= j < k ==> tracks[j].FileTrack? {
      DispatchFirstFailure(tracks, suffix);
      var f :| && 0 <= f < |tracks|
               && ContextFor(tracks[f], suffix) == Failure(Dispatch(tracks, suffix).error)
               && forall j :: 0 <= j < f ==> ContextFor(tracks[j], suffix).Success?;
      if f < k {
        assert tracks[f].FileTrack?;
      }
    }
  }

  /** A failure among the first `n` tracks is the failure of all of them. */
  lemma {:induction false} DispatchKeepsFailure(tracks: seq<Track>, suffix: Result<string, CrossError>, n: nat)
    requires n <= |tracks| && Dispatch(tracks[..n], suffix).Failure?
    ensures Dispatch(tracks, suffix) == Dispatch(tracks[..n], suffix)
    decreases |tracks| - n
  {
    if n < |tracks| {
      var init := tracks[..|tracks| - 1];
      assert init[..n] == tracks[..n];
      DispatchKeepsFailure(init, suffix, n);
    } else {
      assert tracks[..n] == tracks;
    }
  }

  /** The dispatch loop of `x2sys_cross`: one context per track, or the first error. */
  method FileContexts(tracks: seq<Track>, src: TagSource) returns (r: Result<seq<Context>, CrossError>)
    ensures r == Dispatch(tracks, TagSuffix(src))
  {
    var fileContexts: seq<Context> := [];
    var i := 0;
    while i < |tracks|
      invariant 0 <= i <= |tracks|
      invariant Dispatch(tracks[..i], TagSuffix(src)) == Success(fileContexts)
    {
      var track := tracks[i];
      assert tracks[..i + 1][..i] == tracks[..i];
      match track {
        case FileTrack(path) =>
          fileContexts := fileContexts + [Dummy(path)];
        case MatrixTrack(table) =>
          var suffix := TagFileSuffix(src);
          if suffix.Failure? {
            DispatchKeepsFailure(tracks, TagSuffix(src), i + 1);
            return Failure(suffix.error);
          }
          fileContexts := fileContexts + [TempTrack(table, suffix.value)];
        case OtherTrack(typeName) =>
          DispatchKeepsFailure(tracks, TagSuffix(src), i + 1);
          return Failure(InvalidInput("Unrecognized data type: " + typeName));
      }
      i := i + 1;
    }
    assert tracks[..i] == tracks;
    return Success(fileContexts);
  }

  // ------------------------------------------------------ entering and leaving

  /** How many temporary tracks come before context `i`, i.e. how often `unique_name()` ran before it. */
  function TempsBefore(cs: seq<Context>, i: nat): nat
    requires i <= |cs|
    decreases i
  {
    if i == 0 then 0 else TempsBefore(cs, i - 1) + (if cs[i - 1].TempTrack? then 1 else 0)
  }

  /** The file name context `i` yields when the ExitStack enters it. */
  function EnteredName(cs: seq<Context>, unique: nat -> string, i: nat): string
    requires i < |cs|
  {
    match cs[i]
    case Dummy(path) => path
    case TempTrack(_, suffix) => TempTrackName(unique(TempsBefore(cs, i)), suffix)
  }

  /** `fnames`: the names of all contexts, in order. */
  function EnteredNames(cs: seq<Context>, unique: nat -> string): (r: seq<string>)
    ensures |r| == |cs|
    ensures forall i :: 0 <= i < |cs| ==> r[i] == EnteredName(cs, unique, i)
  {
    seq(|cs|, i requires 0 <= i < |cs| => EnteredName(cs, unique, i))
  }

  /** The temporary file context `i` writes, if it is a temporary track. */
  function TempNameAt(cs: seq<Context>, unique: nat -> string, i: nat): set<string>
    requires i < |cs|
  {
    if cs[i].TempTrack? then {EnteredName(cs, unique, i)} else {}
  }

  /** The temporary files written by contexts `lo` up to `hi`. */
  function TempNamesBetween(cs: seq<Context>, unique: nat -> string, lo: nat, hi: nat): set<string>
    requires lo <= hi <= |cs|
    decreases hi - lo
  {
    if lo == hi then {} else TempNameAt(cs, unique, lo) + TempNamesBetween(cs, unique, lo + 1, hi)
  }

  function TempNames(cs: seq<Context>, unique: nat -> string): set<string>
  {
    TempNamesBetween(cs, unique, 0, |cs|)
  }

  lemma {:induction false} TempNamesGrow(cs: seq<Context>, unique: nat -> string, lo: nat, hi: nat)
    requires lo <= hi < |cs|
    ensures TempNamesBetween(cs, unique, lo, hi + 1)
            == TempNamesBetween(cs, unique, lo, hi) + TempNameAt(cs, unique, hi)
    decreases hi - lo
  {
    if lo < hi {
      TempNamesGrow(cs, unique, lo + 1, hi);
    }
  }

  /** A name is among the temporary files of contexts `lo` up to `hi` exactly when one of them wrote it. */
  lemma {:induction false} TempNamesMember(cs: seq<Context>, unique: nat -> string, lo: nat, hi: nat, x: string)
    requires lo <= hi <= |cs|
    ensures x in TempNamesBetween(cs, unique, lo, hi) <==>
            exists i :: lo <= i < hi && cs[i].TempTrack? && EnteredName(cs, unique, i) == x
    decreases hi - lo
  {
    if lo < hi {
      TempNamesMember(cs, unique, lo + 1, hi, x);
      var here := cs[lo].TempTrack? && EnteredName(cs, unique, lo) == x;
      assert x in TempNameAt(cs, unique, lo) <==> here;
      if x in TempNamesBetween(cs, unique, lo, hi) && !here {
        var i :| lo + 1 <= i < hi && cs[i].TempTrack? && EnteredName(cs, unique, i) == x;
        assert lo <= i;
      }
      if exists i :: lo <= i < hi && cs[i].TempTrack? && EnteredName(cs, unique, i) == x {
        var i :| lo <= i < hi && cs[i].TempTrack? && EnteredName(cs, unique, i) == x;
        if i != lo {
          assert lo + 1 <= i;
        }
      }
    }
  }

  /** Each table track draws its name from its own `unique_name()` call, numbered in entry order. */
  lemma {:induction false} TempsBeforeIncreases(cs: seq<Context>, a: nat, b: nat)
    requires a < b <= |cs| && cs[a].TempTrack?
    ensures TempsBefore(cs, a) < TempsBefore(cs, b)
    decreases b
  {
    if b > a + 1 {
      TempsBeforeIncreases(cs, a, b - 1);
    }
  }

  /**
   * `fnames` passes a file track's own path through, gives a table track a
   * `track-…` name ending in its suffix, and the table tracks' names are
   * exactly the temporary files written.
   */
  lemma EnteredNamesLayout(cs: seq<Context>, unique: nat -> string)
    ensures var r := EnteredNames(cs, unique);
      && (forall i :: 0 <= i < |cs| && cs[i].Dummy? ==> r[i] == cs[i].path)
      && (forall i :: 0 <= i < |cs| && cs[i].TempTrack? ==>
            && "track-" <= r[i]
            && |r[i]| <= 6 + 7 + 1 + |cs[i].suffix|
            && r[i][|r[i]| - |cs[i].suffix| - 1..] == "." + cs[i].suffix)
      && (forall x :: x in TempNames(cs, unique) <==>
            exists i :: 0 <= i < |cs| && cs[i].TempTrack? && r[i] == x)
  {
    var r := EnteredNames(cs, unique);
    forall i | 0 <= i < |cs| && cs[i].TempTrack?
      ensures && "track-" <= r[i]
              && |r[i]| <= 6 + 7 + 1 + |cs[i].suffix|
              && r[i][|r[i]| - |cs[i].suffix| - 1..] == "." + cs[i].suffix
    {
      TempTrackNameLayout(unique(TempsBefore(cs, i)), cs[i].suffix);
    }
    forall x ensures x in TempNames(cs, unique) <==> exists i :: 0 <= i < |cs| && cs[i].TempTrack? && r[i] == x {
      TempNamesMember(cs, unique, 0, |cs|, x);
    }
  }

  /** No two temporary tracks among contexts `lo` onwards share a name. */
  predicate DistinctTempNamesFrom(cs: seq<Context>, unique: nat -> string, lo: nat)
    requires lo <= |cs|
  {
    forall a, b :: lo <= a < b < |cs| && cs[a].TempTrack? && cs[b].TempTrack? ==>
      EnteredName(cs, unique, a) != EnteredName(cs, unique, b)
  }

  predicate DistinctTempNames(cs: seq<Context>, unique: nat -> string)
  {
    DistinctTempNamesFrom(cs, unique, 0)
  }

  /** Context `lo` keeps the names distinct exactly when no later temporary track reuses its name. */
  lemma DistinctTempNamesStep(cs: seq<Context>, unique: nat -> string, lo: nat)
    requires lo < |cs|
    ensures DistinctTempNamesFrom(cs, unique, lo) <==>
            && DistinctTempNamesFrom(cs, unique, lo + 1)
            && (cs[lo].TempTrack? ==> EnteredName(cs, unique, lo) !in TempNamesBetween(cs, unique, lo + 1, |cs|))
  {
    TempNamesMember(cs, unique, lo + 1, |cs|, EnteredName(cs, unique, lo));
  }

  /**
   * With one suffix for all table tracks, as a dispatch gives them, cleanup
   * succeeds exactly when no two `unique_name()` calls share their first 7
   * characters.
   */
  lemma CleanupFailsOnSharedPrefix(cs: seq<Context>, unique: nat -> string, suffix: string)
    requires forall i :: 0 <= i < |cs| && cs[i].TempTrack? ==> cs[i].suffix == suffix
    ensures DistinctTempNames(cs, unique) <==>
            forall a, b :: 0 <= a < b < |cs| && cs[a].TempTrack? && cs[b].TempTrack? ==>
              TakeFront(unique(TempsBefore(cs, a)), 7) != TakeFront(unique(TempsBefore(cs, b)), 7)
  {
    forall a, b | 0 <= a < b < |cs| && cs[a].TempTrack? && cs[b].TempTrack?
      ensures EnteredName(cs, unique, a) == EnteredName(cs, unique, b) <==>
              TakeFront(unique(TempsBefore(cs, a)), 7) == TakeFront(unique(TempsBefore(cs, b)), 7)
    {
      TempNamesCollideAt(cs, unique, suffix, a, b);
    }
  }

  /** Two table tracks with one suffix collide exactly when their `unique_name()` calls share 7 leading characters. */
  lemma TempNamesCollideAt(cs: seq<Context>, unique: nat -> string, suffix: string, a: nat, b: nat)
    requires a < |cs| && b < |cs| && cs[a].TempTrack? && cs[b].TempTrack?
    requires cs[a].suffix == suffix && cs[b].suffix == suffix
    ensures EnteredName(cs, unique, a) == EnteredName(cs, unique, b) <==>
            TakeFront(unique(TempsBefore(cs, a)), 7) == TakeFront(unique(TempsBefore(cs, b)), 7)
  {
    assert EnteredName(cs, unique, a) == TempTrackName(unique(TempsBefore(cs, a)), suffix);
    assert EnteredName(cs, unique, b) == TempTrackName(unique(TempsBefore(cs, b)), suffix);
    TempTrackNamesCollide(unique(TempsBefore(cs, a)), unique(TempsBefore(cs, b)), suffix);
  }

  /** Every table track of a successful dispatch gets the one suffix the lookup gives. */
  lemma DispatchOneSuffix(tracks: seq<Track>, suffix: Result<string, CrossError>)
    requires Dispatch(tracks, suffix).Success?
    ensures var cs := Dispatch(tracks, suffix).value;
      forall i :: 0 <= i < |cs| && cs[i].TempTrack? ==> suffix == Success(cs[i].suffix)
  {
    var cs := Dispatch(tracks, suffix).value;
    forall i | 0 <= i < |cs| && cs[i].TempTrack? ensures suffix == Success(cs[i].suffix) {
      assert ContextFor(tracks[i], suffix) == Success(cs[i]);
    }
  }

  /** `fnames = [stack.enter_context(c) for c in file_contexts]`. */
  method EnterContexts(fs: FileSystem, cs: seq<Context>, unique: nat -> string) returns (fnames: seq<string>)
    modifies fs
    ensures fnames == EnteredNames(cs, unique)
    ensures fs.files == old(fs.files) + TempNames(cs, unique)
  {
    fnames := [];
    var calls: nat := 0;
    var j := 0;
    while j < |cs|
      invariant 0 <= j <= |cs|
      invariant calls == TempsBefore(cs, j)
      invariant |fnames| == j
      invariant forall k :: 0 <= k < j ==> fnames[k] == EnteredName(cs, unique, k)
      invariant fs.files == old(fs.files) + TempNamesBetween(cs, unique, 0, j)
    {
      TempNamesGrow(cs, unique, 0, j);
      var name: string;
      if cs[j].TempTrack? {
        name := fs.EnterTempTrack(unique(calls), cs[j].suffix);
        calls := calls + 1;
      } else {
        name := cs[j].path;
      }
      var before := fnames;
      fnames := before + [name];
      forall k | 0 <= k <= j ensures fnames[k] == EnteredName(cs, unique, k) {
        if k < j {
          assert fnames[k] == before[k];
        }
      }
      j := j + 1;
    }
  }

  /**
   * Leaving the ExitStack: every context is exited, last first, also when the
   * module call raised; each temporary track is removed. Removal fails when an
   * earlier-exited track had the same name.
   */
  method ExitContexts(fs: FileSystem, cs: seq<Context>, unique: nat -> string, fnames: seq<string>)
    returns (cleanupOk: bool)
    requires fnames == EnteredNames(cs, unique)
    requires TempNames(cs, unique) <= fs.files
    modifies fs
    ensures cleanupOk == DistinctTempNames(cs, unique)
    ensures fs.files == old(fs.files) - TempNames(cs, unique)
  {
    cleanupOk := true;
    var k := |cs|;
    while k > 0
      invariant 0 <= k <= |cs|
      invariant fs.files == old(fs.files) - TempNamesBetween(cs, unique, k, |cs|)
      invariant cleanupOk == DistinctTempNamesFrom(cs, unique, k)
    {
      k := k - 1;
      DistinctTempNamesStep(cs, unique, k);
      if cs[k].TempTrack? {
        var name := fnames[k];
        TempNamesMember(cs, unique, 0, |cs|, name);
        assert name in old(fs.files);
        var removed := fs.ExitTempTrack(name);
        cleanupOk := cleanupOk && removed;
      }
    }
  }

  // ------------------------------------------------------------ x2sys_cross

  /** `" ".join([*fnames, build_arg_string(kwargs), "->" + outfile])`. */
  function CrossArgs(fnames: seq<string>, builtArgs: string, outfile: string): string
  {
    JoinWith(" ", fnames + [builtArgs, "->" + outfile])
  }

  /**
   * The argument string of `x2sys_cross` splits into the track names in input
   * order, then the options, then `->outfile` as the last token (file names
   * without spaces).
   */
  lemma {:induction false} CrossArgsLayout(fnames: seq<string>, builtArgs: string, outfile: string)
    requires forall k :: 0 <= k < |fnames| ==> ' ' !in fnames[k]
    requires ' ' !in outfile
    ensures Split(CrossArgs(fnames, builtArgs, outfile), ' ') == fnames + Split(builtArgs, ' ') + ["->" + outfile]
  {
    var tail := "->" + outfile;
    assert ' ' !in tail;
    SplitWithoutSeparator(tail, ' ');
    SplitAround(builtArgs, tail, ' ');
    assert JoinWith(" ", [builtArgs, tail]) == builtArgs + [' '] + tail;
    if fnames == [] {
      assert fnames + [builtArgs, tail] == [builtArgs, tail];
    } else {
      JoinAppend(" ", fnames, [builtArgs, tail]);
      SplitJoin(fnames, ' ');
      SplitAround(JoinWith(" ", fnames), builtArgs + [' '] + tail, ' ');
      assert JoinWith(" ", fnames) + " " + (builtArgs + [' '] + tail)
             == JoinWith(" ", fnames) + [' '] + (builtArgs + [' '] + tail);
    }
  }

  /** `outfile`, or the temporary output file when it is None. */
  function OutputPath(outfile: Option<string>, tmpName: string): (path: string)
    ensures outfile.None? ==> path == tmpName
    ensures outfile.Some? ==> path == outfile.value
    ensures path == tmpName <==> outfile.None? || outfile == Some(tmpName)
  {
    if outfile.None? then tmpName else outfile.value
  }

  /** `table.rename(columns={table.columns[0]: table.columns[0][2:]})`. */
  function RenameFirstColumn(t: Table): (r: Option<Table>)
    ensures r.None? <==> t.columns == []
    ensures r.Some? ==> |r.value.columns| == |t.columns| && r.value.rows == t.rows
    ensures r.Some? ==> r.value.columns[0] == DropFront(t.columns[0], 2)
    ensures r.Some? ==> forall k :: 0 <= k < |t.columns| && t.columns[k] != t.columns[0] ==>
                                      r.value.columns[k] == t.columns[k]
    ensures r.Some? ==> forall k :: 0 <= k < |t.columns| && t.columns[k] == t.columns[0] ==>
                                      r.value.columns[k] == DropFront(t.columns[0], 2)
  {
    if t.columns == [] then None
    else
      var first := t.columns[0];
      var renamed := seq(|t.columns|, k requires 0 <= k < |t.columns| =>
                           if t.columns[k] == first then DropFront(first, 2) else t.columns[k]);
      Some(Table(renamed, t.rows))
  }

  /** The header `# x` written by GMT reads back as `x`. */
  lemma HeaderPrefixRemoved(t: Table, name: string)
    requires t.columns != [] && t.columns[0] == "# " + name
    ensures RenameFirstColumn(t).Some? && "# " + RenameFirstColumn(t).value.columns[0] == t.columns[0]
  {
    var first := t.columns[0];
    assert first[..2] == "# " && first[2..] == name;
  }

  /** The value of `x2sys_cross`. */
  datatype CrossResult =
    | Crossovers(table: Table)    // read back from the temporary output file
    | WrittenToFile               // None: the output is in `outfile`
    | CrossFailed(error: CrossError)

  /** What the externals of one `x2sys_cross` call produce. */
  datatype CrossEnv = CrossEnv(
    unique: nat -> string,        // the n-th result of unique_name()
    tmpName: string,              // GMTTempFile(suffix=".txt").name
    builtArgs: string,            // build_arg_string(kwargs)
    moduleError: Option<string>,  // the error call_module raises, if any
    output: Option<Table>)        // what read_csv parses from the temporary output, None if it raises

  /** What happens once the module call and the ExitStack are over. */
  function AfterCall(cleanupOk: bool, moduleError: Option<string>, toTemp: bool, output: Option<Table>): (r: CrossResult)
    ensures r.Crossovers? ==> toTemp && cleanupOk && moduleError.None?
    ensures r.WrittenToFile? <==> !toTemp && cleanupOk && moduleError.None?
    ensures !cleanupOk ==> r == CrossFailed(CleanupFailed)
    ensures cleanupOk && moduleError.Some? ==> r == CrossFailed(ModuleFailed(moduleError.value))
    ensures toTemp && cleanupOk && moduleError.None? && output.None? ==> r == CrossFailed(ReadFailed)
    ensures toTemp && cleanupOk && moduleError.None? && output.Some? && output.value.columns == [] ==>
              r == CrossFailed(NoColumns)
    ensures toTemp && cleanupOk && moduleError.None? && output.Some? && output.value.columns != [] ==>
              r == Crossovers(RenameFirstColumn(output.value).value)
  {
    if !cleanupOk then CrossFailed(CleanupFailed)
    else if moduleError.Some? then CrossFailed(ModuleFailed(moduleError.value))
    else if toTemp then
      match output
      case None => CrossFailed(ReadFailed)
      case Some(t) =>
        match RenameFirstColumn(t)
        case None => CrossFailed(NoColumns)
        case Some(renamed) => Crossovers(renamed)
    else WrittenToFile
  }

  /**
   * `x2sys_cross(tracks, outfile, **kwargs)` inside its session: the call it
   * makes (None if it raised before reaching `call_module`) and its value.
   */
  method X2sysCross(fs: FileSystem, tracks: seq<Track>, outfile: Option<string>, src: TagSource, ce: CrossEnv)
    returns (r: CrossResult, call: Option<ModuleCall>)
    modifies fs
    ensures Dispatch(tracks, TagSuffix(src)).Failure? ==>
              && r == CrossFailed(Dispatch(tracks, TagSuffix(src)).error)
              && call == None
              && fs.files == old(fs.files)
    ensures Dispatch(tracks, TagSuffix(src)).Success? ==>
              var cs := Dispatch(tracks, TagSuffix(src)).value;
              var out := OutputPath(outfile, ce.tmpName);
              && call == Some(ModuleCall("x2sys_cross", CrossArgs(EnteredNames(cs, ce.unique), ce.builtArgs, out)))
              && fs.files == old(fs.files) - TempNames(cs, ce.unique)
              && r == AfterCall(DistinctTempNames(cs, ce.unique), ce.moduleError, out == ce.tmpName, ce.output)
  {
    var contexts := FileContexts(tracks, src);
    if contexts.Failure? {
      return CrossFailed(contexts.error), None;
    }
    var cs := contexts.value;
    var fnames := EnterContexts(fs, cs, ce.unique);
    var out := OutputPath(outfile, ce.tmpName);
    call := Some(ModuleCall("x2sys_cross", CrossArgs(fnames, ce.builtArgs, out)));
    var cleanupOk := ExitContexts(fs, cs, ce.unique, fnames);
    r := AfterCall(cleanupOk, ce.moduleError, out == ce.tmpName, ce.output);
  }

  /** After `x2sys_cross`, none of the temporary track files it wrote is left on disk. */
  lemma NoTempTrackLeft(before: set<string>, after: set<string>, cs: seq<Context>, unique: nat -> string)
    requires after == before - TempNames(cs, unique)
    ensures forall i :: 0 <= i < |cs| && cs[i].TempTrack? ==> EnteredName(cs, unique, i) !in after
  {
    forall i | 0 <= i < |cs| && cs[i].TempTrack? ensures EnteredName(cs, unique, i) !in after {
      TempNamesMember(cs, unique, 0, |cs|, EnteredName(cs, unique, i));
    }
  }

  /**
   * The return rule: a table only when the output went to the temporary file,
   * hence always when `outfile` is None and the call succeeded.
   */
  lemma ReturnRule(cs: seq<Context>, ce: CrossEnv, outfile: Option<string>)
    requires DistinctTempNames(cs, ce.unique) && ce.moduleError.None?
    requires ce.output.Some? && ce.output.value.columns != []
    ensures var r := AfterCall(DistinctTempNames(cs, ce.unique), ce.moduleError,
                               OutputPath(outfile, ce.tmpName) == ce.tmpName, ce.output);
      && (outfile.None? ==> r == Crossovers(RenameFirstColumn(ce.output.value).value))
      && (outfile.Some? && outfile.value != ce.tmpName ==> r == WrittenToFile)
  {
  }
}
