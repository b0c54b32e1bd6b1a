/** The command-line scanner at the top of `Main.main`: a loop over the
    arguments whose state `prev` records which flag, if any, is waiting for
    its value, and which builds the run configuration. */
module Args {
  import opened Wrappers
  import opened JavaInt
  import opened JavaString

  const DefaultIterations: Int32 := 1
  const DefaultWarmupIterations: Int32 := 3

  /** The project names the scanner accepts as positional arguments. */
  const AllProjects: set<string> := {"sbt-0.13.17", "sbt-1.3.0", "mill-0.3.6", "gradle-5.4.1"}

  /** The scanner's state `prev`: `Idle` is `'\0'`; the others are `'b'`,
      `'s'`, `'i'` and `'w'`, a flag waiting for its value. */
  datatype Pending = Idle | BaseDirectory | SourceDirectory | Iterations | WarmupIterations

  /** What the scan yields. Paths are kept as the strings given to
      `Paths.get`. */
  datatype Config = Config(
    baseDirectory: Option<string>,
    sourceDirectory: Option<string>,
    iterations: Int32,
    warmupIterations: Int32,
    projects: seq<string>)

  /** `Integer.valueOf` threw `NumberFormatException` on this token; `main`
      does not catch it. */
  datatype ScanError = NumberFormat(token: string)

  /** The value a flag token announces, or `Idle` for a token that is not
      one of the eight flag spellings. */
  function FlagOf(arg: string): Pending
  {
    if arg == "-b" || arg == "--base-directory" then BaseDirectory
    else if arg == "-s" || arg == "--source-directory" then SourceDirectory
    else if arg == "-i" || arg == "--iterations" then Iterations
    else if arg == "-w" || arg == "--warmup-iterations" then WarmupIterations
    else Idle
  }

  /** What the `key=value` fallback does with a token. */
  datatype Assignment = NoAssignment | SetSource(source: string) | SetBase(base: string)

  /** The `key=value` fallback: the token must split around `=` into exactly
      two parts; the key `-s` or `--base-directory` (tested first) sets the
      source directory, `-b` sets the base directory, any other key is
      ignored. */
  function KeyValue(arg: string): (r: Assignment)
    ensures r != NoAssignment ==> |Split(arg, '=')| == 2
    ensures r.SetSource? ==> r.source == Split(arg, '=')[1] && Split(arg, '=')[0] in {"-s", "--base-directory"}
    ensures r.SetBase? ==> r.base == Split(arg, '=')[1] && Split(arg, '=')[0] == "-b"
  {
    var parts := Split(arg, '=');
    if |parts| == 2 then
      if parts[0] == "-s" || parts[0] == "--base-directory" then SetSource(parts[1])
      else if parts[0] == "-b" || parts[0] == "--base-directory" then SetBase(parts[1])
      else NoAssignment
    else NoAssignment
  }

  // ----- The scan, characterised over prefixes of the arguments -----

  function Init(args: seq<string>): seq<string>
    requires |args| > 0
  {
    args[..|args| - 1]
  }

  function Last(args: seq<string>): string
    requires |args| > 0
  {
    args[|args| - 1]
  }

  /** The state `prev` after reading `args`: a flag read in the idle state
      makes the scanner wait; the token after it, whatever it is, is taken
      as the value and the scanner is idle again. */
  function StateAfter(args: seq<string>): Pending
    decreases |args|
  {
    if args == [] then Idle
    else if StateAfter(Init(args)) == Idle then FlagOf(Last(args))
    else Idle
  }

  /** Whether a token read in state `s` goes to the `key=value` fallback:
      it is read idle and is neither a flag nor a recognised project. */
  predicate Fallback(s: Pending, arg: string)
  {
    s == Idle && FlagOf(arg) == Idle && arg !in AllProjects
  }

  /** The base directory a token read in state `s` assigns, if any. */
  function BaseEffect(s: Pending, arg: string): Option<string>
  {
    if s == BaseDirectory then Some(arg)
    else if Fallback(s, arg) && KeyValue(arg).SetBase? then Some(KeyValue(arg).base)
    else None
  }

  /** The source directory a token read in state `s` assigns, if any. */
  function SourceEffect(s: Pending, arg: string): Option<string>
  {
    if s == SourceDirectory then Some(arg)
    else if Fallback(s, arg) && KeyValue(arg).SetSource? then Some(KeyValue(arg).source)
    else None
  }

  /** The last base directory assigned by `args`: the last assignment wins. */
  function LastBase(args: seq<string>): Option<string>
    decreases |args|
  {
    if args == [] then None
    else
      var e := BaseEffect(StateAfter(Init(args)), Last(args));
      if e.Some? then e else LastBase(Init(args))
  }

  /** The last source directory assigned by `args`. */
  function LastSource(args: seq<string>): Option<string>
    decreases |args|
  {
    if args == [] then None
    else
      var e := SourceEffect(StateAfter(Init(args)), Last(args));
      if e.Some? then e else LastSource(Init(args))
  }

  /** The value of the last well-formed `-i` value in `args`, or the default. */
  function LastIterations(args: seq<string>): Int32
    decreases |args|
  {
    if args == [] then DefaultIterations
    else if StateAfter(Init(args)) == Iterations && ParseInt(Last(args)).Some? then ParseInt(Last(args)).value
    else LastIterations(Init(args))
  }

  /** The value of the last well-formed `-w` value in `args`, or the default. */
  function LastWarmupIterations(args: seq<string>): Int32
    decreases |args|
  {
    if args == [] then DefaultWarmupIterations
    else if StateAfter(Init(args)) == WarmupIterations && ParseInt(Last(args)).Some? then ParseInt(Last(args)).value
    else LastWarmupIterations(Init(args))
  }

  /** Whether a token read in state `s` is a malformed number. */
  predicate BadNumber(s: Pending, arg: string)
  {
    (s == Iterations || s == WarmupIterations) && ParseInt(arg).None?
  }

  /** The first token of `args` that is the value of `-i` or `-w` and is not
      a decimal `int`. */
  function FirstBadNumber(args: seq<string>): Option<string>
    decreases |args|
  {
    if args == [] then None
    else if FirstBadNumber(Init(args)).Some? then FirstBadNumber(Init(args))
    else if BadNumber(StateAfter(Init(args)), Last(args)) then Some(Last(args))
    else None
  }

  /** The recognised project names read in the idle state, in order, with
      duplicates kept. */
  function IdleProjects(args: seq<string>): seq<string>
    decreases |args|
  {
    if args == [] then []
    else if StateAfter(Init(args)) == Idle && FlagOf(Last(args)) == Idle && Last(args) in AllProjects then
      IdleProjects(Init(args)) + [Last(args)]
    else IdleProjects(Init(args))
  }

  /** What scanning `args` yields: the first malformed number aborts the
      scan; otherwise every field holds its last assignment. */
  function Scanned(args: seq<string>): Result<Config, ScanError>
  {
    if FirstBadNumber(args).Some? then Failure(NumberFormat(FirstBadNumber(args).value))
    else Success(Config(LastBase(args), LastSource(args), LastIterations(args),
                        LastWarmupIterations(args), IdleProjects(args)))
  }

  /** The scanning loop of `main`. */
  method Scan(args: seq<string>) returns (r: Result<Config, ScanError>)
    ensures r == Scanned(args)
  {
    var prev := Idle;
    var warmupIterations := DefaultWarmupIterations;
    var iterations := DefaultIterations;
    var baseDirectory: Option<string> := None;
    var sourceDirectory: Option<string> := None;
    var projects: seq<string> := [];
    for n := 0 to |args|
      invariant prev == StateAfter(args[..n])
      invariant FirstBadNumber(args[..n]).None?
      invariant baseDirectory == LastBase(args[..n])
      invariant sourceDirectory == LastSource(args[..n])
      invariant iterations == LastIterations(args[..n])
      invariant warmupIterations == LastWarmupIterations(args[..n])
      invariant projects == IdleProjects(args[..n])
    {
      var arg := args[n];
      assert Init(args[..n + 1]) == args[..n] && Last(args[..n + 1]) == arg;
      match prev {
        case BaseDirectory =>
          baseDirectory := Some(arg);
          prev := Idle;
        case SourceDirectory =>
          sourceDirectory := Some(arg);
          prev := Idle;
        case Iterations =>
          var v := ParseInt(arg);
          if v.None? {
            assert args[..n + 1] + args[n + 1..] == args;
            FirstBadNumberPrefix(args[..n + 1], args[n + 1..]);
            return Failure(NumberFormat(arg));
          }
          iterations := v.value;
          prev := Idle;
        case WarmupIterations =>
          var v := ParseInt(arg);
          if v.None? {
            assert args[..n + 1] + args[n + 1..] == args;
            FirstBadNumberPrefix(args[..n + 1], args[n + 1..]);
            return Failure(NumberFormat(arg));
          }
          warmupIterations := v.value;
          prev := Idle;
        case Idle =>
          var flag := FlagOf(arg);
          if flag != Idle {
            prev := flag;
          } else if arg in AllProjects {
            projects := projects + [arg];
          } else {
            match KeyValue(arg) {
              case SetSource(p) => sourceDirectory := Some(p);
              case SetBase(p) => baseDirectory := Some(p);
              case NoAssignment =>
            }
            prev := Idle;
          }
      }
    }
    assert args[..|args|] == args;
    r := Success(Config(baseDirectory, sourceDirectory, iterations, warmupIterations, projects));
  }

  /** Once a malformed number has been read, later tokens do not change
      which token is reported. */
  lemma {:induction false} FirstBadNumberPrefix(args: seq<string>, more: seq<string>)
    requires FirstBadNumber(args).Some?
    ensures FirstBadNumber(args + more) == FirstBadNumber(args)
    decreases |more|
  {
    if more != [] {
      var front := Init(more);
      FirstBadNumberPrefix(args, front);
      assert Init(args + more) == args + front;
    } else {
      assert args + more == args;
    }
  }

  // ----- Properties of the scan -----

  /** Without arguments the configuration is the default one. */
  lemma NoArguments()
    ensures Scanned([]) == Success(Config(None, None, 1, 3, []))
  {
  }

  lemma Snoc(args: seq<string>, t: string)
    ensures |args + [t]| > 0 && Init(args + [t]) == args && Last(args + [t]) == t
  {
    assert (args + [t])[..|args|] == args;
  }

  /** A flag read in the idle state makes the very next token its value,
      whatever that token is (another flag or a project name included); the
      scanner is idle again afterwards. */
  lemma FlagTakesNextToken(args: seq<string>, flag: string, v: string)
    requires StateAfter(args) == Idle && FlagOf(flag) != Idle
    requires Scanned(args).Success?
    ensures StateAfter(args + [flag, v]) == Idle
    ensures var c := Scanned(args).value;
      Scanned(args + [flag, v]) ==
        match FlagOf(flag)
        case BaseDirectory => Success(c.(baseDirectory := Some(v)))
        case SourceDirectory => Success(c.(sourceDirectory := Some(v)))
        case Iterations =>
          if ParseInt(v).Some? then Success(c.(iterations := ParseInt(v).value)) else Failure(NumberFormat(v))
        case WarmupIterations =>
          if ParseInt(v).Some? then Success(c.(warmupIterations := ParseInt(v).value)) else Failure(NumberFormat(v))
  {
    var waiting := args + [flag];
    TrailingFlag(args, flag);
    assert FirstBadNumber(waiting).None?;
    Snoc(waiting, v);
    assert waiting + [v] == args + [flag, v];
  }

  /** A flag with nothing after it leaves the configuration as it was. */
  lemma TrailingFlag(args: seq<string>, flag: string)
    requires StateAfter(args) == Idle && FlagOf(flag) != Idle
    ensures StateAfter(args + [flag]) == FlagOf(flag)
    ensures Scanned(args + [flag]) == Scanned(args)
  {
    Snoc(args, flag);
  }

  /** A recognised project name read in the idle state is appended to the
      project list, and nothing else changes. */
  lemma ProjectToken(args: seq<string>, p: string)
    requires StateAfter(args) == Idle && p in AllProjects
    requires Scanned(args).Success?
    ensures StateAfter(args + [p]) == Idle
    ensures Scanned(args + [p]) == Success(Scanned(args).value.(projects := Scanned(args).value.projects + [p]))
  {
    Snoc(args, p);
  }

  /** Any other token read in the idle state changes the configuration only
      through the `key=value` fallback. */
  lemma OtherToken(args: seq<string>, t: string)
    requires Fallback(StateAfter(args), t)
    requires Scanned(args).Success?
    ensures StateAfter(args + [t]) == Idle
    ensures var c := Scanned(args).value;
      Scanned(args + [t]) ==
        match KeyValue(t)
        case SetSource(p) => Success(c.(sourceDirectory := Some(p)))
        case SetBase(p) => Success(c.(baseDirectory := Some(p)))
        case NoAssignment => Success(c)
  {
    Snoc(args, t);
  }

  /** The `key=value` forms: `-s=X` and `--base-directory=X` set the source
      directory, `-b=X` sets the base directory, and every other key (among
      them `--source-directory`) is ignored. Trailing `=` signs after the
      value are dropped by the split. */
  lemma KeyValueForms(key: string, v: string, n: nat)
    requires '=' !in key && '=' !in v && v != ""
    ensures KeyValue(key + "=" + v + Repeat("=", n)) ==
      if key == "-s" || key == "--base-directory" then SetSource(v)
      else if key == "-b" then SetBase(v)
      else NoAssignment
  {
    SplitKeyValue(key, v, n, '=');
  }

  /** Conversely, a token assigns a directory only when it is a key, one
      `=`, a non-empty value without `=`, and possibly more `=` signs. */
  lemma KeyValueShape(arg: string) returns (key: string, v: string, n: nat)
    requires KeyValue(arg) != NoAssignment
    ensures '=' !in key && '=' !in v && v != ""
    ensures arg == key + "=" + v + Repeat("=", n)
    ensures KeyValue(arg) == if key == "-s" || key == "--base-directory" then SetSource(v) else SetBase(v)
    ensures KeyValue(arg).SetBase? ==> key == "-b"
  {
    n := SplitTwoParts(arg, '=');
    key, v := Split(arg, '=')[0], Split(arg, '=')[1];
  }

  /** Every scanned project name is one of the four recognised names. */
  lemma {:induction false} ProjectsRecognised(args: seq<string>)
    ensures forall p :: p in IdleProjects(args) ==> p in AllProjects
    decreases |args|
  {
    if args != [] {
      ProjectsRecognised(Init(args));
    }
  }

  /** The tokens of `args` that are recognised project names, in order. */
  function Recognised(args: seq<string>): seq<string>
    decreases |args|
  {
    if args == [] then []
    else if Last(args) in AllProjects then Recognised(Init(args)) + [Last(args)]
    else Recognised(Init(args))
  }

  /** Without flags the scanner never leaves the idle state, so the project
      list is exactly the recognised names among the arguments. */
  lemma {:induction false} ProjectsWithoutFlags(args: seq<string>)
    requires forall k :: 0 <= k < |args| ==> FlagOf(args[k]) == Idle
    ensures StateAfter(args) == Idle
    ensures IdleProjects(args) == Recognised(args)
    decreases |args|
  {
    if args != [] {
      assert forall k :: 0 <= k < |Init(args)| ==> Init(args)[k] == args[k];
      ProjectsWithoutFlags(Init(args));
    }
  }
}
