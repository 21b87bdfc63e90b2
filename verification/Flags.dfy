/**
 * The command-line flag parser of Abseil: a loop over a stack of argument lists, on which --flagfile,
 * --fromenv and --tryfromenv push new ones, against a recursive reading of the same arguments.
 */
module Flags {

  import opened Optional

  datatype Flag = Flag(isBool: bool, retired: bool)

  /**
   * What parsing depends on: the registered flags, which texts each can be set from, the usage flags,
   * and the files and the environment that the generator flags read.
   */
  datatype World = World(
    flags: map<string, Flag>,
    accepts: (string, string) -> bool,
    isUsage: (string, string) -> bool,
    files: map<string, string>,
    env: map<string, string>)

  datatype Assignment = Assignment(flag: string, value: string)

  /** The lists of files and of environment variables that are still to be read; empty if none is. */
  datatype Generators = Generators(flagfile: seq<string>, fromenv: seq<string>, tryfromenv: seq<string>)

  const IDLE := Generators([], [], [])

  /** All that parsing does; alive is false once the process has aborted. */
  datatype Trace = Trace(
    settings: seq<Assignment>,
    positional: seq<string>,
    unrecognized: seq<(bool, string)>,
    flagfiles: seq<string>,
    success: bool,
    alive: bool) {

    /** This, and then the other, unless the process has aborted. */
    function Then(t: Trace): Trace {
      if !alive then this
      else Trace(settings + t.settings, positional + t.positional, unrecognized + t.unrecognized,
                 flagfiles + t.flagfiles, success && t.success, t.alive)
    }
  }

  const QUIET := Trace([], [], [], [], true, true)
  const ABORT := QUIET.(alive := false)
  const FAILURE := QUIET.(success := false)

  // One argument.

  /** The name, the value, and whether the value is empty but present. */
  function SplitNameAndValue(text: string): (r: (string, string, bool))
    ensures '=' !in r.0
    ensures r.2 ==> r.1 == ""
    ensures (if text != "" && text[0] == '-' then text[1..] else text)
         == if r.1 == "" && !r.2 then r.0 else r.0 + "=" + r.1
  {
    var arg := if text != "" && text[0] == '-' then text[1..] else text;
    var i := IndexOf(arg, '=');
    if i == |arg| then (arg, "", false) else (arg[..i], arg[i + 1..], i + 1 == |arg|)
  }

  function IndexOf(text: string, c: char): (i: nat)
    ensures i <= |text| && c !in text[..i]
    ensures i < |text| ==> text[i] == c
  {
    if text == "" || text[0] == c then 0 else 1 + IndexOf(text[1..], c)
  }

  /** The pieces of a text between the commas; no pieces in the empty text. */
  function SplitList(text: string): (parts: seq<string>)
    ensures parts == [] <==> text == ""
  {
    if text == "" then [] else Pieces(text)
  }

  function Pieces(text: string): (parts: seq<string>)
    ensures parts != []
    decreases |text|
  {
    var i := IndexOf(text, ',');
    if i == |text| then [text] else [text[..i]] + Pieces(text[i + 1..])
  }

  /** The registered name that a written name stands for, and whether it is negated. */
  function LocateFlag(w: World, name: string): (r: Option<(string, bool)>)
    ensures r.Some? ==> r.value.0 in w.flags && name == (if r.value.1 then "no" else "") + r.value.0
  {
    if name in w.flags then Some((name, false))
    else if "no" <= name && name[2..] in w.flags then Some((name[2..], true))
    else None
  }

  /** The value to set, if it can be deduced, and how many arguments that takes. */
  datatype Deduced = Deduced(success: bool, value: string, used: nat)

  /** The forms of a flag that may be written; a value may be missing only if it can be supplied. */
  predicate IsSupported(flag: Flag, hasValue: bool, isNegative: bool, isEmptyValue: bool, hasNext: bool) {
    if isNegative then flag.isBool && !hasValue && !isEmptyValue
    else if isEmptyValue then !flag.isBool
    else hasValue || flag.isBool || hasNext
  }

  function DeduceFlagValue(flag: Flag, value: string, isNegative: bool, isEmptyValue: bool, rest: seq<string>): (r: Deduced)
    requires rest != [] && (isEmptyValue ==> value == "")
    ensures r.success <==> IsSupported(flag, value != "", isNegative, isEmptyValue, |rest| > 1)
    ensures 1 <= r.used <= |rest| && (!r.success ==> r.value == "" && r.used == 1)
    ensures r.success && (value != "" || isEmptyValue) ==> r.value == value && r.used == 1
    ensures r.used > 1 ==> !flag.isBool && r.value == rest[1]
  {
    if flag.isBool then
      if value == "" then
        if isEmptyValue then Deduced(false, "", 1) else Deduced(true, if isNegative then "0" else "1", 1)
      else if isNegative then Deduced(false, "", 1)
      else Deduced(true, value, 1)
    else if isNegative then Deduced(false, "", 1)
    else if value == "" && !isEmptyValue then
      if |rest| == 1 then Deduced(false, "", 1) else Deduced(true, rest[1], 2)
    else Deduced(true, value, 1)
  }

  /** What the first of the remaining arguments does, and how many of them it takes. */
  datatype Effect = Effect(trace: Trace, used: nat, next: Generators, stop: bool) {
    /** No argument after this one is looked at. */
    predicate Ends() {
      stop || !trace.alive
    }
  }

  function Argument(w: World, rest: seq<string>, top: bool): (e: Effect)
    requires rest != []
    ensures 1 <= e.used <= |rest|
    ensures e.stop ==> top && e == Effect(QUIET, 1, IDLE, true)
    ensures !e.trace.alive ==> !top
  {
    var arg := rest[0];
    if arg == "" || arg[0] != '-' || arg == "-" then
      Effect(if top then QUIET.(positional := [arg]) else ABORT, 1, IDLE, false)
    else
      var (name, value, isEmptyValue) := SplitNameAndValue(arg[1..]);
      if name != "" then NamedArgument(w, name, value, isEmptyValue, rest, top)
      else if top then Effect(QUIET, 1, IDLE, true)
      else Effect(ABORT, 1, IDLE, false)
  }

  /** An argument that names a flag. */
  function NamedArgument(w: World, name: string, value: string, isEmptyValue: bool, rest: seq<string>, top: bool): (e: Effect)
    requires rest != [] && (isEmptyValue ==> value == "")
    ensures 1 <= e.used <= |rest| && !e.stop && e.trace.alive
  {
    match LocateFlag(w, name)
    case None =>
      Effect(if w.isUsage(name, value) then QUIET else QUIET.(unrecognized := [(top, name)]), 1, IDLE, false)
    case Some((flag, isNegative)) =>
      var d := DeduceFlagValue(w.flags[flag], value, isNegative, isEmptyValue, rest);
      var (trace, next) := ParseFrom(w, flag, d.value);
      Effect(trace.(success := trace.success && d.success), d.used, next, false)
  }

  /** A generator flag set to a list that is not empty has that list read in the next round. */
  function ParseFrom(w: World, flag: string, value: string): (r: (Trace, Generators))
    requires flag in w.flags
    ensures r.0.alive
  {
    if w.flags[flag].retired then (QUIET, IDLE)
    else if !w.accepts(flag, value) then (FAILURE, IDLE)
    else
      var list := SplitList(value);
      (QUIET.(settings := [Assignment(flag, value)]),
       if flag == "flagfile" then IDLE.(flagfile := list)
       else if flag == "fromenv" then IDLE.(fromenv := list)
       else if flag == "tryfromenv" then IDLE.(tryfromenv := list)
       else IDLE)
  }

  // The lists that the generator flags produce.

  predicate IsSpace(c: char) {
    c == ' ' || '\t' <= c <= '\r'
  }

  function StripLeading(line: string): string {
    if line != "" && IsSpace(line[0]) then StripLeading(line[1..]) else line
  }

  /** The arguments in the lines of a flag file, unless some line is not one. */
  function FileArguments(lines: seq<string>): Option<seq<string>> {
    if lines == [] then Some([])
    else
      var before, line := FileArguments(lines[..|lines| - 1]), StripLeading(lines[|lines| - 1]);
      if line == "" || line[0] == '#' then before
      else if line[0] == '-' && line != "--" && before.Some? then Some(before.value + [line])
      else None
  }

  /** What getline reads: the text between line breaks, where a break at the very end starts no further line. */
  function Lines(text: string): (lines: seq<string>)
    ensures forall line <- lines :: '\n' !in line
    decreases |text|
  {
    var i := IndexOf(text, '\n');
    if text == "" then []
    else if i == |text| then [text]
    else [text[..i]] + Lines(text[i + 1..])
  }

  function Contents(w: World, file: string): Option<seq<string>> {
    if file in w.files then FileArguments(Lines(w.files[file])) else None
  }

  /** The lists of the files that can be read, in order. */
  function FileLists(w: World, files: seq<string>): seq<seq<string>> {
    if files == [] then []
    else
      (match Contents(w, files[0]) case Some(args) => [args] case None => []) + FileLists(w, files[1..])
  }

  predicate FilesAreGood(w: World, files: seq<string>) {
    forall f <- files :: Contents(w, f).Some?
  }

  predicate NameIsGood(w: World, name: string, mustExist: bool) {
    name != "fromenv" && name != "tryfromenv" && (mustExist ==> "FLAGS_" + name in w.env)
  }

  predicate NamesAreGood(w: World, names: seq<string>, mustExist: bool) {
    forall name <- names :: NameIsGood(w, name, mustExist)
  }

  /** The assignments that the environment holds for the names. */
  function EnvArguments(w: World, names: seq<string>): seq<string> {
    if names == [] then []
    else
      var before, name := EnvArguments(w, names[..|names| - 1]), names[|names| - 1];
      if name != "fromenv" && name != "tryfromenv" && "FLAGS_" + name in w.env
      then before + ["--" + name + "=" + w.env["FLAGS_" + name]]
      else before
  }

  function EnvLists(w: World, names: seq<string>, mustExist: bool): seq<seq<string>> {
    if names != [] && NamesAreGood(w, names, mustExist) then [EnvArguments(w, names)] else []
  }

  /** The lists to run, in the order in which they will run. */
  function Lists(w: World, g: Generators): seq<seq<string>> {
    EnvLists(w, g.tryfromenv, false) + EnvLists(w, g.fromenv, true) + FileLists(w, g.flagfile)
  }

  /** What reading the lists leaves behind by itself. */
  function Reading(w: World, g: Generators, top: bool): (t: Trace)
    ensures t.alive
  {
    QUIET.(flagfiles := if top then g.flagfile else [],
           success := FilesAreGood(w, g.flagfile) && NamesAreGood(w, g.fromenv, true) && NamesAreGood(w, g.tryfromenv, false))
  }

  // The recursive reading.

  /** Lists of arguments that name further lists, at most d deep. */
  predicate Nests(w: World, rest: seq<string>, top: bool, d: nat)
    decreases 2 * d, |rest|, 1
  {
    rest == [] ||
    var e := Argument(w, rest, top);
    e.Ends() || (NextNests(w, e.next, d) && Nests(w, rest[e.used..], top, d))
  }

  predicate ListsNest(w: World, lists: seq<seq<string>>, d: nat)
    decreases 2 * d + 1, 0, 0
  {
    forall l <- lists :: Nests(w, l, false, d)
  }

  predicate NextNests(w: World, g: Generators, d: nat)
    decreases 2 * d, 0, 0
  {
    Lists(w, g) == [] || (d > 0 && ListsNest(w, Lists(w, g), d - 1))
  }

  /** What happens, and how many rounds of the loop it takes. */
  datatype Course = Course(trace: Trace, rounds: nat) {
    function Then(c: Course): Course {
      if !trace.alive then this else Course(trace.Then(c.trace), rounds + c.rounds)
    }
  }

  const REST := Course(QUIET, 0)

  /**
   * Runs the arguments one by one; where one is a generator flag, runs all its lists before the
   * next argument. After "--" the arguments are positional.
   */
  function Interpret(w: World, rest: seq<string>, top: bool, d: nat): Course
    requires Nests(w, rest, top, d)
    decreases 2 * d, |rest|, 1
  {
    if rest == [] then Course(QUIET, 1)
    else
      var e := Argument(w, rest, top);
      if e.stop then Course(QUIET.(positional := rest[1..]), 1)
      else if !e.trace.alive then Course(e.trace, 1)
      else
        Course(e.trace, 1)
        .Then(Generate(w, e.next, top, d))
        .Then(Interpret(w, rest[e.used..], top, d))
  }

  function Generate(w: World, g: Generators, top: bool, d: nat): Course
    requires NextNests(w, g, d)
    decreases 2 * d, 0, 0
  {
    hide Lists, Reading;
    Course(Reading(w, g, top), 0).Then(if Lists(w, g) == [] then REST else InterpretAll(w, Lists(w, g), d - 1))
  }

  function InterpretAll(w: World, lists: seq<seq<string>>, d: nat): Course
    requires ListsNest(w, lists, d)
    decreases 2 * d + 1, |lists|, 0
  {
    if lists == [] then REST else Interpret(w, lists[0], false, d).Then(InterpretAll(w, lists[1..], d))
  }

  /** What parsing a command line must do. */
  function Parsed(w: World, argv: seq<string>, initial: Generators, d: nat): Trace
    requires argv != [] && NextNests(w, initial, d) && Nests(w, argv[1..], true, d)
  {
    QUIET.(positional := [argv[0]])
    .Then(Generate(w, initial, true, d).Then(Interpret(w, argv[1..], true, d)).trace)
  }

  // Sequencing.

  lemma ThenAssociates(a: Course, b: Course, c: Course)
    ensures a.Then(b).Then(c) == a.Then(b.Then(c))
  {
    assert forall x: seq<Assignment>, y, z :: (x + y) + z == x + (y + z);
  }

  lemma RestIsNeutral(a: Course)
    ensures a.Then(REST) == a && REST.Then(a) == a
  {
  }

  lemma NothingToRead(w: World)
    ensures Pushed([]) == [] && FileLists(w, []) == [] && FilesAreGood(w, [])
    ensures EnvLists(w, [], true) == EnvLists(w, [], false) == []
    ensures NamesAreGood(w, [], true) && NamesAreGood(w, [], false)
  {
  }

  lemma IdleReadsNothing(w: World, top: bool)
    ensures Lists(w, IDLE) == [] && Reading(w, IDLE, top) == QUIET
  {
    hide NameIsGood, Contents, EnvArguments;
  }

  lemma IdleDoesNothing(w: World, top: bool, d: nat)
    ensures NextNests(w, IDLE, d) && Generate(w, IDLE, top, d) == REST
  {
    hide Lists, Reading, Course.Then;
    IdleReadsNothing(w, top);
    RestIsNeutral(REST);
  }

  /** A bound on the nesting is only that: a larger one gives the same result. */
  lemma {:induction false} DeeperIsTheSame(w: World, rest: seq<string>, top: bool, d: nat, d': nat)
    requires Nests(w, rest, top, d) && d <= d'
    ensures Nests(w, rest, top, d') && Interpret(w, rest, top, d') == Interpret(w, rest, top, d)
    decreases 2 * d, |rest|, 1
  {
    hide Argument, Lists, Course.Then;
    if rest != [] {
      var e := Argument(w, rest, top);
      if !e.Ends() {
        DeeperNext(w, e.next, top, d, d');
        DeeperIsTheSame(w, rest[e.used..], top, d, d');
      }
    }
  }

  lemma {:induction false} DeeperNext(w: World, g: Generators, top: bool, d: nat, d': nat)
    requires NextNests(w, g, d) && d <= d'
    ensures NextNests(w, g, d') && Generate(w, g, top, d') == Generate(w, g, top, d)
    decreases 2 * d, 0, 0
  {
    hide Lists, Course.Then, Reading;
    if Lists(w, g) != [] {
      DeeperAll(w, Lists(w, g), d - 1, d' - 1);
    }
  }

  lemma {:induction false} DeeperAll(w: World, lists: seq<seq<string>>, d: nat, d': nat)
    requires ListsNest(w, lists, d) && d <= d'
    ensures ListsNest(w, lists, d') && InterpretAll(w, lists, d') == InterpretAll(w, lists, d)
    decreases 2 * d + 1, |lists|, 0
  {
    hide Nests, Interpret, Course.Then;
    if lists != [] {
      DeeperIsTheSame(w, lists[0], false, d, d');
      DeeperAll(w, lists[1..], d, d');
      assert lists == [lists[0]] + lists[1..];
    }
  }

  // The stack.

  /** An argument list, and the argument in it that was handled last. */
  datatype ArgsList = ArgsList(args: seq<string>, next: nat) {
    predicate Valid() {
      next < |args|
    }

    function Size(): int {
      |args| - next
    }

    function PopFront(n: nat): ArgsList {
      this.(next := next + n)
    }

    /** What is left to handle. */
    function Rest(): seq<string>
      requires Valid()
    {
      args[next + 1..]
    }
  }

  predicate StackNests(w: World, stack: seq<ArgsList>, d: nat) {
    forall k :: 0 <= k < |stack| ==> stack[k].Valid() && Nests(w, stack[k].Rest(), k == 0, d)
  }

  /** What is still to happen: the rest of the top list, then that of the one below it, and so on. */
  function Unwind(w: World, stack: seq<ArgsList>, d: nat): Course
    requires StackNests(w, stack, d)
  {
    if stack == [] then REST
    else
      var n := |stack| - 1;
      Interpret(w, stack[n].Rest(), n == 0, d).Then(Unwind(w, stack[..n], d))
  }

  /** The lists as they lie on the stack, the first on top, each behind an empty program name. */
  function Pushed(lists: seq<seq<string>>): seq<ArgsList> {
    if lists == [] then [] else Pushed(lists[1..]) + [ArgsList([""] + lists[0], 0)]
  }

  lemma {:induction false} PushedUnwinds(w: World, stack: seq<ArgsList>, lists: seq<seq<string>>, d: nat)
    requires stack != [] && StackNests(w, stack, d) && ListsNest(w, lists, d)
    ensures StackNests(w, stack + Pushed(lists), d)
    ensures Unwind(w, stack + Pushed(lists), d) == InterpretAll(w, lists, d).Then(Unwind(w, stack, d))
  {
    hide Nests, Interpret, Course.Then;
    if lists == [] {
      assert stack + Pushed(lists) == stack;
      RestIsNeutral(Unwind(w, stack, d));
    } else {
      PushedUnwinds(w, stack, lists[1..], d);
      var list := ArgsList([""] + lists[0], 0);
      assert list.Rest() == lists[0];
      var all := stack + Pushed(lists);
      assert all == (stack + Pushed(lists[1..])) + [list];
      assert all[..|all| - 1] == stack + Pushed(lists[1..]);
      ThenAssociates(Interpret(w, lists[0], false, d), InterpretAll(w, lists[1..], d), Unwind(w, stack, d));
    }
  }

  lemma {:induction false} PushedAppends(a: seq<seq<string>>, b: seq<seq<string>>)
    ensures Pushed(a + b) == Pushed(b) + Pushed(a)
  {
    if a == [] {
      assert a + b == b;
    } else {
      PushedAppends(a[1..], b);
      assert (a + b)[1..] == a[1..] + b;
    }
  }

  /** Pushing the lists that the generators ask for is reading them, and then what they hold. */
  lemma GeneratedUnwinds(w: World, stack: seq<ArgsList>, g: Generators, d: nat)
    requires stack != [] && StackNests(w, stack, d) && NextNests(w, g, d)
    ensures StackNests(w, stack + Pushed(Lists(w, g)), d)
    ensures Generate(w, g, |stack| == 1, d).Then(Unwind(w, stack, d))
         == Course(Reading(w, g, |stack| == 1), 0).Then(Unwind(w, stack + Pushed(Lists(w, g)), d))
  {
    hide Lists, Course.Then, Reading, Nests, Interpret, StackNests, Unwind;
    var top := |stack| == 1;
    var reading := Course(Reading(w, g, top), 0);
    if Lists(w, g) == [] {
      assert stack + Pushed(Lists(w, g)) == stack;
      RestIsNeutral(reading);
    } else {
      DeeperAll(w, Lists(w, g), d - 1, d);
      PushedUnwinds(w, stack, Lists(w, g), d);
      ThenAssociates(reading, InterpretAll(w, Lists(w, g), d), Unwind(w, stack, d));
    }
  }

  // The parser.

  lemma {:induction false} BadLineSpoilsTheFile(lines: seq<string>, n: nat)
    requires n <= |lines| && FileArguments(lines[..n]).None?
    ensures FileArguments(lines).None?
    decreases |lines|
  {
    if n < |lines| {
      assert lines[..|lines| - 1][..n] == lines[..n];
      BadLineSpoilsTheFile(lines[..|lines| - 1], n);
    } else {
      assert lines[..n] == lines;
    }
  }

  method ReadFromFlagfile(w: World, file: string) returns (args: seq<string>, success: bool)
    ensures success <==> Contents(w, file).Some?
    ensures success ==> args == [""] + Contents(w, file).value
  {
    if file !in w.files {
      return [], false;
    }
    var lines := Lines(w.files[file]);
    args, success := [""], true;
    for i := 0 to |lines|
      invariant match FileArguments(lines[..i])
                case Some(found) => success && args == [""] + found
                case None => !success
    {
      var stripped := StripLeading(lines[i]);
      assert lines[..i + 1][..i] == lines[..i];
      if stripped == "" || stripped[0] == '#' {
        continue;
      }
      if stripped[0] == '-' {
        if stripped == "--" {
          BadLineSpoilsTheFile(lines, i + 1);
          return args, false;
        }
        args := args + [stripped];
        continue;
      }
      success := false;
    }
    assert lines[..|lines|] == lines;
  }

  method ReadFlagfiles(w: World, flagfiles: seq<string>, stack: seq<ArgsList>) returns (stack': seq<ArgsList>, success: bool)
    ensures stack' == stack + Pushed(FileLists(w, flagfiles))
    ensures success <==> FilesAreGood(w, flagfiles)
  {
    stack', success := stack, true;
    var i := |flagfiles|;
    assert flagfiles[i..] == [];
    while i > 0
      invariant 0 <= i <= |flagfiles|
      invariant stack' == stack + Pushed(FileLists(w, flagfiles[i..]))
      invariant success <==> FilesAreGood(w, flagfiles[i..])
    {
      i := i - 1;
      assert flagfiles[i..] == [flagfiles[i]] + flagfiles[i + 1..];
      var args, good := ReadFromFlagfile(w, flagfiles[i]);
      ghost var below := FileLists(w, flagfiles[i + 1..]);
      if good {
        PushedAppends([args[1..]], below);
        assert Pushed([args[1..]]) == [ArgsList(args, 0)];
        stack' := stack' + [ArgsList(args, 0)];
      } else {
        assert [] + below == below;
        success := false;
      }
    }
    assert flagfiles[0..] == flagfiles;
  }

  lemma NamesAreGoodUpTo(w: World, names: seq<string>, mustExist: bool, i: nat)
    requires i < |names|
    ensures NamesAreGood(w, names[..i + 1], mustExist)
       <==> NamesAreGood(w, names[..i], mustExist) && NameIsGood(w, names[i], mustExist)
  {
    hide NameIsGood;
    assert names[..i + 1] == names[..i] + [names[i]];
  }

  method ReadFlagsFromEnv(w: World, names: seq<string>, stack: seq<ArgsList>, mustExist: bool)
    returns (stack': seq<ArgsList>, success: bool)
    requires names != []
    ensures stack' == stack + Pushed(EnvLists(w, names, mustExist))
    ensures success <==> NamesAreGood(w, names, mustExist)
  {
    var args := [""];
    success := true;
    for i := 0 to |names|
      invariant args == [""] + EnvArguments(w, names[..i])
      invariant success <==> NamesAreGood(w, names[..i], mustExist)
    {
      var name := names[i];
      NamesAreGoodUpTo(w, names, mustExist, i);
      assert names[..i + 1][..i] == names[..i];
      if name == "fromenv" || name == "tryfromenv" {
        success := false;
        continue;
      }
      if "FLAGS_" + name !in w.env {
        if mustExist {
          success := false;
        }
        continue;
      }
      args := args + ["--" + name + "=" + w.env["FLAGS_" + name]];
    }
    assert names[..|names|] == names;
    stack' := if success then stack + [ArgsList(args, 0)] else stack;
  }

  lemma ReadingIs(w: World, g: Generators, top: bool)
    ensures var good :=
              FilesAreGood(w, g.flagfile) && NamesAreGood(w, g.fromenv, true) && NamesAreGood(w, g.tryfromenv, false);
      Reading(w, g, top) == QUIET.(flagfiles := if top then g.flagfile else [], success := good)
  {}

  /** Pushes the lists of the generator flags that wait to be processed. */
  method HandleGeneratorFlags(w: World, stack: seq<ArgsList>, pending: Generators)
    returns (stack': seq<ArgsList>, flagfileValue: seq<string>, success: bool)
    ensures stack' == stack + Pushed(Lists(w, pending))
    ensures Reading(w, pending, |stack| == 1) == QUIET.(flagfiles := flagfileValue, success := success)
  {
    hide Pushed, FileLists, FilesAreGood, EnvLists, NamesAreGood, Reading, Lists;
    NothingToRead(w);
    ReadingIs(w, pending, |stack| == 1);
    ListsAre(w, pending);
    stack', flagfileValue, success := stack, [], true;
    var good;
    ghost var files := FileLists(w, pending.flagfile);
    NothingPushed(stack);
    if pending.flagfile != [] {
      if |stack| == 1 {
        flagfileValue := pending.flagfile;
      }
      stack', good := ReadFlagfiles(w, pending.flagfile, stack');
      success := success && good;
    }
    assert stack' == stack + Pushed(files);
    ghost var env := EnvLists(w, pending.fromenv, true);
    NothingPushed(stack');
    PushedOnTop(stack, env, files);
    if pending.fromenv != [] {
      stack', good := ReadFlagsFromEnv(w, pending.fromenv, stack', true);
      success := success && good;
    }
    assert stack' == stack + Pushed(env + files);
    ghost var tryEnv := EnvLists(w, pending.tryfromenv, false);
    NothingPushed(stack');
    PushedOnTop(stack, tryEnv, env + files);
    if pending.tryfromenv != [] {
      stack', good := ReadFlagsFromEnv(w, pending.tryfromenv, stack', false);
      success := success && good;
    }
  }

  lemma NothingPushed(stack: seq<ArgsList>)
    ensures stack + Pushed([]) == stack
  {}

  lemma PushedOnTop(stack: seq<ArgsList>, a: seq<seq<string>>, b: seq<seq<string>>)
    ensures (stack + Pushed(b)) + Pushed(a) == stack + Pushed(a + b)
  {
    hide Pushed;
    PushedAppends(a, b);
  }

  lemma ListsAre(w: World, g: Generators)
    ensures EnvLists(w, g.tryfromenv, false) + (EnvLists(w, g.fromenv, true) + FileLists(w, g.flagfile)) == Lists(w, g)
  {
    hide EnvLists, FileLists;
  }

  predicate Ready(w: World, stack: seq<ArgsList>, pending: Generators, d: nat) {
    StackNests(w, stack, d) && NextNests(w, pending, d) && (stack == [] ==> pending == IDLE)
  }

  /** All that is still to happen when a round begins. */
  function Remaining(w: World, stack: seq<ArgsList>, pending: Generators, d: nat): Course
    requires Ready(w, stack, pending, d)
  {
    Generate(w, pending, |stack| == 1, d).Then(Unwind(w, stack, d))
  }

  /** A round whose list is used up drops it. */
  lemma DropRound(w: World, stack: seq<ArgsList>, d: nat)
    requires stack != [] && StackNests(w, stack, d) && stack[|stack| - 1].Rest() == []
    ensures Ready(w, stack[..|stack| - 1], IDLE, d)
    ensures Unwind(w, stack, d) == Course(QUIET, 1).Then(Remaining(w, stack[..|stack| - 1], IDLE, d))
  {
    hide Nests, NextNests, Generate, Course.Then;
    var below := stack[..|stack| - 1];
    IdleDoesNothing(w, |below| == 1, d);
    RestIsNeutral(Unwind(w, below, d));
  }

  /** The other rounds handle one argument of the top list. */
  lemma ArgumentRound(w: World, stack: seq<ArgsList>, d: nat)
    requires stack != [] && StackNests(w, stack, d) && stack[|stack| - 1].Rest() != []
    ensures var n := |stack| - 1;
            var e := Argument(w, stack[n].Rest(), n == 0);
            if e.stop then
              n == 0 && Unwind(w, stack, d) == Course(QUIET.(positional := stack[n].Rest()[1..]), 1)
            else if !e.trace.alive then
              Unwind(w, stack, d) == Course(e.trace, 1).Then(REST)
            else
              && Ready(w, stack[n := stack[n].PopFront(e.used)], e.next, d)
              && Unwind(w, stack, d)
              == Course(e.trace, 1).Then(Remaining(w, stack[n := stack[n].PopFront(e.used)], e.next, d))
  {
    hide Argument, NextNests, Generate, Course.Then;
    var n := |stack| - 1;
    var rest := stack[n].Rest();
    var e := Argument(w, rest, n == 0);
    var below := Unwind(w, stack[..n], d);
    if e.stop {
      UnwindOne(w, stack, d);
    } else if !e.trace.alive {
      DeadEnd(Course(e.trace, 1), below);
      DeadEnd(Course(e.trace, 1), REST);
    } else {
      var stack' := stack[n := stack[n].PopFront(e.used)];
      assert stack'[n].Rest() == rest[e.used..];
      assert stack'[..n] == stack[..n];
      var done, next, after := Course(e.trace, 1), Generate(w, e.next, n == 0, d), Interpret(w, rest[e.used..], n == 0, d);
      ThenAssociates(done.Then(next), after, below);
      ThenAssociates(done, next, after.Then(below));
    }
  }

  lemma DeadEnd(a: Course, b: Course)
    requires !a.trace.alive
    ensures a.Then(b) == a
  {
  }

  lemma UnwindOne(w: World, stack: seq<ArgsList>, d: nat)
    requires |stack| == 1 && StackNests(w, stack, d)
    ensures Unwind(w, stack, d) == Interpret(w, stack[0].Rest(), true, d)
  {
    hide Nests, Interpret, Course.Then;
    assert Unwind(w, stack[..0], d) == REST;
    RestIsNeutral(Interpret(w, stack[0].Rest(), true, d));
  }

  lemma TraceThenAssociates(a: Trace, b: Trace, c: Trace)
    ensures a.Then(b).Then(c) == a.Then(b.Then(c))
  {
    ThenAssociates(Course(a, 0), Course(b, 0), Course(c, 0));
  }

  lemma ThenReading(out: Trace, flagfiles: seq<string>, success: bool)
    requires out.alive
    ensures out.Then(QUIET.(flagfiles := flagfiles, success := success))
         == out.(flagfiles := out.flagfiles + flagfiles, success := out.success && success)
  {
  }

  /** A round takes what it does off the front of what remains. */
  lemma RoundDone(out: Trace, remaining: Course, reading: Trace, t: Trace, after: Course, goal: Trace)
    requires out.alive && reading.alive
    requires remaining == Course(reading, 0).Then(Course(t, 1).Then(after))
    requires out.Then(remaining.trace) == goal
    ensures out.Then(reading).alive
    ensures var out' := out.Then(reading).Then(t);
            if t.alive then out'.alive && out'.Then(after.trace) == goal && after.rounds < remaining.rounds
            else out' == goal
  {
    TraceThenAssociates(out, reading, t);
    TraceThenAssociates(out, reading.Then(t), after.trace);
    TraceThenAssociates(reading, t, after.trace);
  }

  lemma StackOfOne(w: World, argv: seq<string>, initial: Generators, d: nat)
    requires argv != [] && NextNests(w, initial, d) && Nests(w, argv[1..], true, d)
    ensures Ready(w, [ArgsList(argv, 0)], initial, d)
    ensures Parsed(w, argv, initial, d)
         == QUIET.(positional := [argv[0]]).Then(Remaining(w, [ArgsList(argv, 0)], initial, d).trace)
  {
    hide Nests, NextNests, Generate, Interpret, Unwind, Trace.Then;
    assert ArgsList(argv, 0).Rest() == argv[1..];
    UnwindOne(w, [ArgsList(argv, 0)], d);
  }

  lemma ReadyToRead(w: World, stack: seq<ArgsList>, pending: Generators, d: nat)
    requires stack != [] && Ready(w, stack, pending, d)
    ensures StackNests(w, stack + Pushed(Lists(w, pending)), d)
    ensures Remaining(w, stack, pending, d)
         == Course(Reading(w, pending, |stack| == 1), 0).Then(Unwind(w, stack + Pushed(Lists(w, pending)), d))
  {
    hide StackNests, NextNests, Generate, Unwind, Course.Then, Pushed, Lists, Reading;
    GeneratedUnwinds(w, stack, pending, d);
  }

  lemma ThenQuiet(t: Trace)
    ensures t.Then(QUIET) == t
  {
  }

  lemma StopRound(out: Trace, remaining: Course, reading: Trace, rest: seq<string>, goal: Trace)
    requires out.alive && reading.alive
    requires remaining == Course(reading, 0).Then(Course(QUIET.(positional := rest), 1))
    requires out.Then(remaining.trace) == goal
    ensures var out' := out.Then(reading); goal == out'.(positional := out'.positional + rest)
  {
    TraceThenAssociates(out, reading, QUIET.(positional := rest));
  }

  lemma Finished(w: World, out: Trace, pending: Generators, d: nat)
    requires Ready(w, [], pending, d)
    ensures out.Then(Remaining(w, [], pending, d).trace) == out
  {
    hide Generate, NextNests;
    IdleDoesNothing(w, false, d);
  }

  /** All the arguments after "--" are positional. */
  method PushRest(out: Trace, args: seq<string>, first: nat) returns (out': Trace)
    requires first <= |args|
    ensures out' == out.(positional := out.positional + args[first..])
  {
    out' := out;
    for i := first to |args|
      invariant out' == out.(positional := out.positional + args[first..i])
    {
      out' := out'.(positional := out'.positional + [args[i]]);
    }
    assert args[first..|args|] == args[first..];
  }

  /**
   * Parses a command line, after any generator flags that the program has set itself: whatever
   * the files and the environment hold, as long as they do not name each other without end,
   * the loop over the stack ends, and does what the recursive reading does.
   */
  method ParseAbseilFlagsOnly(w: World, argv: seq<string>, initial: Generators, ghost d: nat) returns (out: Trace)
    requires argv != [] && NextNests(w, initial, d) && Nests(w, argv[1..], true, d)
    ensures out == Parsed(w, argv, initial, d)
  {
    hide Argument, Parsed, Ready, Remaining, Generate, Unwind, Trace.Then, Course.Then, Reading, Lists, Pushed;
    var stack, pending := [ArgsList(argv, 0)], initial;
    out := QUIET.(positional := [argv[0]]);
    ghost var goal := Parsed(w, argv, initial, d);
    StackOfOne(w, argv, initial, d);
    while stack != []
      invariant Ready(w, stack, pending, d)
      invariant out.alive && out.Then(Remaining(w, stack, pending, d).trace) == goal
      decreases Remaining(w, stack, pending, d).rounds
    {
      ghost var before, remaining := out, Remaining(w, stack, pending, d);
      ghost var reading := Reading(w, pending, |stack| == 1);
      ReadyToRead(w, stack, pending, d);
      var flagfileValue, success;
      stack, flagfileValue, success := HandleGeneratorFlags(w, stack, pending);
      out := out.(flagfiles := out.flagfiles + flagfileValue, success := out.success && success);
      ThenReading(before, flagfileValue, success);

      var n := |stack| - 1;
      var curr := stack[n].PopFront(1);
      if curr.Size() == 0 {
        DropRound(w, stack, d);
        stack, pending := stack[..n], IDLE;
        ThenQuiet(out);
        RoundDone(before, remaining, reading, QUIET, Remaining(w, stack, pending, d), goal);
        continue;
      }
      ArgumentRound(w, stack, d);
      var e := Argument(w, curr.args[curr.next..], n == 0);
      if e.stop {
        StopRound(before, remaining, reading, curr.args[curr.next + 1..], goal);
        out := PushRest(out, curr.args, curr.next + 1);
        return;
      }
      out := out.Then(e.trace);
      if !e.trace.alive {
        RoundDone(before, remaining, reading, e.trace, REST, goal);
        return;
      }
      stack, pending := stack[n := curr.PopFront(e.used - 1)], e.next;
      RoundDone(before, remaining, reading, e.trace, Remaining(w, stack, pending, d), goal);
    }
    Finished(w, out, pending, d);
  }

  // Which forms mean the same.

  lemma {:induction false} IndexOfFirst(before: string, c: char, after: string)
    requires c !in before
    ensures IndexOf(before + [c] + after, c) == |before|
  {
    if before != [] {
      IndexOfFirst(before[1..], c, after);
      assert (before + [c] + after)[1..] == before[1..] + [c] + after;
    }
  }

  lemma {:induction false} IndexOfNone(text: string, c: char)
    requires c !in text
    ensures IndexOf(text, c) == |text|
  {
    if text != [] {
      IndexOfNone(text[1..], c);
    }
  }

  lemma SettingSplits(name: string, value: string)
    requires '=' !in name
    ensures SplitNameAndValue("-" + name + "=" + value) == (name, value, value == "")
    ensures SplitNameAndValue("-" + name) == (name, "", false)
  {
    var arg := name + "=" + value;
    assert ("-" + name + "=" + value)[1..] == arg;
    IndexOfFirst(name, '=', value);
    assert arg[..|name|] == name && arg[|name| + 1..] == value;
    assert ("-" + name)[1..] == name;
    IndexOfNone(name, '=');
  }

  /** The text that sets a flag. */
  function Setting(a: Assignment): string {
    "--" + a.flag + "=" + a.value
  }

  predicate CanSet(w: World, a: Assignment) {
    && a.flag != "" && '=' !in a.flag && a.flag in w.flags && !w.flags[a.flag].retired
    && w.accepts(a.flag, a.value) && (w.flags[a.flag].isBool ==> a.value != "")
    && a.flag !in {"flagfile", "fromenv", "tryfromenv"}
  }

  lemma SettingIsNamed(w: World, a: Assignment, rest: seq<string>, top: bool)
    requires a.flag != "" && '=' !in a.flag
    ensures Argument(w, [Setting(a)] + rest, top)
         == NamedArgument(w, a.flag, a.value, a.value == "", [Setting(a)] + rest, top)
  {
    hide SplitNameAndValue, NamedArgument;
    assert Setting(a)[1..] == "-" + a.flag + "=" + a.value;
    SettingSplits(a.flag, a.value);
  }

  lemma BareNameIsNamed(w: World, name: string, rest: seq<string>, top: bool)
    requires name != "" && '=' !in name
    ensures Argument(w, ["--" + name] + rest, top) == NamedArgument(w, name, "", false, ["--" + name] + rest, top)
  {
    hide SplitNameAndValue, NamedArgument;
    assert ("--" + name)[1..] == "-" + name;
    SettingSplits(name, "");
  }

  lemma SettingSets(w: World, a: Assignment, rest: seq<string>, top: bool)
    requires CanSet(w, a)
    ensures Argument(w, [Setting(a)] + rest, top) == Effect(QUIET.(settings := [a]), 1, IDLE, false)
  {
    hide Argument, Setting, SplitList;
    SettingIsNamed(w, a, rest, top);
  }

  /** A value may follow its flag as an argument of its own, unless the flag is boolean. */
  lemma SeparateValueSets(w: World, a: Assignment, rest: seq<string>, top: bool)
    requires CanSet(w, a) && !w.flags[a.flag].isBool
    ensures Argument(w, ["--" + a.flag, a.value] + rest, top) == Effect(QUIET.(settings := [a]), 2, IDLE, false)
  {
    hide Argument, SplitList;
    assert ["--" + a.flag, a.value] + rest == ["--" + a.flag] + ([a.value] + rest);
    BareNameIsNamed(w, a.flag, [a.value] + rest, top);
  }

  /** A boolean flag is set by its name alone. */
  lemma BareNameSets(w: World, name: string, rest: seq<string>, top: bool)
    requires CanSet(w, Assignment(name, "1")) && w.flags[name].isBool
    ensures Argument(w, ["--" + name] + rest, top) == Effect(QUIET.(settings := [Assignment(name, "1")]), 1, IDLE, false)
  {
    hide Argument, SplitList;
    BareNameIsNamed(w, name, rest, top);
  }

  /** It is cleared by its name after "no", unless that is the name of another flag. */
  lemma NegatedNameClears(w: World, name: string, rest: seq<string>, top: bool)
    requires CanSet(w, Assignment(name, "0")) && w.flags[name].isBool
    requires "no" + name !in w.flags
    ensures Argument(w, ["--no" + name] + rest, top) == Effect(QUIET.(settings := [Assignment(name, "0")]), 1, IDLE, false)
  {
    hide Argument, SplitList;
    assert ("no" + name)[2..] == name && "--no" + name == "--" + ("no" + name);
    BareNameIsNamed(w, "no" + name, rest, top);
  }

  /** All the ways of writing one setting, and what each needs. */
  lemma WrittenForms(w: World, a: Assignment, rest: seq<string>, top: bool)
    requires CanSet(w, a)
    ensures var done := QUIET.(settings := [a]);
      && Argument(w, [Setting(a)] + rest, top) == Effect(done, 1, IDLE, false)
      && (!w.flags[a.flag].isBool ==> Argument(w, ["--" + a.flag, a.value] + rest, top) == Effect(done, 2, IDLE, false))
      && (w.flags[a.flag].isBool && a.value == "1" ==> Argument(w, ["--" + a.flag] + rest, top) == Effect(done, 1, IDLE, false))
      && (w.flags[a.flag].isBool && a.value == "0" && "no" + a.flag !in w.flags ==>
            Argument(w, ["--no" + a.flag] + rest, top) == Effect(done, 1, IDLE, false))
  {
    var flag := w.flags[a.flag];
    assert CanSet(w, Assignment(a.flag, a.value));
    hide Argument, Setting, CanSet;
    SettingSets(w, a, rest, top);
    if !flag.isBool {
      SeparateValueSets(w, a, rest, top);
    } else {
      if a.value == "1" { BareNameSets(w, a.flag, rest, top); }
      if a.value == "0" && "no" + a.flag !in w.flags { NegatedNameClears(w, a.flag, rest, top); }
    }
  }

  /**
   * When no value can be deduced, parsing fails, and all the same the flag is set to the empty text, unless it
   * is retired or cannot be set to that.
   */
  lemma FailureStillSets(w: World, name: string, value: string, isEmptyValue: bool, rest: seq<string>, top: bool)
    requires rest != [] && (isEmptyValue ==> value == "") && LocateFlag(w, name).Some?
    requires var (flag, isNegative) := LocateFlag(w, name).value;
      !DeduceFlagValue(w.flags[flag], value, isNegative, isEmptyValue, rest).success
    ensures var e, flag := NamedArgument(w, name, value, isEmptyValue, rest, top), LocateFlag(w, name).value.0;
      && !e.trace.success && e.used == 1
      && (e.trace.settings != [] <==> !w.flags[flag].retired && w.accepts(flag, ""))
      && (e.trace.settings != [] ==> e.trace.settings == [Assignment(flag, "")])
  {
    hide LocateFlag, DeduceFlagValue, SplitList;
  }

  /** A flag that takes any text, as the last argument and without a value: a failure, and yet a setting. */
  lemma MissingValueIsSetEmpty()
    ensures var w := World(map["title" := Flag(false, false)], (flag, value) => true, (name, value) => false, map[], map[]);
      Argument(w, ["--title"], true) == Effect(QUIET.(settings := [Assignment("title", "")], success := false), 1, IDLE, false)
  {
    var w := World(map["title" := Flag(false, false)], (flag, value) => true, (name, value) => false, map[], map[]);
    hide SplitList, Argument;
    assert "--" + "title" == "--title" && ["--title"] + [] == ["--title"];
    BareNameIsNamed(w, "title", [], true);
  }

  function Written(settings: seq<Assignment>): seq<string> {
    if settings == [] then [] else Written(settings[..|settings| - 1]) + [Setting(settings[|settings| - 1])]
  }

  lemma {:induction false} WrittenAt(settings: seq<Assignment>)
    ensures |Written(settings)| == |settings|
    ensures forall i :: 0 <= i < |settings| ==> Written(settings)[i] == Setting(settings[i])
  {
    if settings != [] {
      WrittenAt(settings[..|settings| - 1]);
    }
  }

  lemma {:induction false} WrittenIsAFile(w: World, settings: seq<Assignment>)
    requires forall a <- settings :: CanSet(w, a)
    ensures FileArguments(Written(settings)) == Some(Written(settings))
  {
    if settings != [] {
      var n := |settings| - 1;
      WrittenIsAFile(w, settings[..n]);
      var line := Setting(settings[n]);
      assert CanSet(w, settings[n]);
      WrittenAt(settings);
      assert |line| > 3 && line[0] == '-' && StripLeading(line) == line;
      assert Written(settings)[..n] == Written(settings[..n]);
    }
  }

  /** One argument that sets one flag. */
  lemma FirstArgumentRuns(w: World, rest: seq<string>, top: bool, t: Trace, d: nat)
    requires rest != [] && Argument(w, rest, top) == Effect(t, 1, IDLE, false)
    requires Nests(w, rest[1..], top, d)
    ensures Nests(w, rest, top, d)
    ensures Interpret(w, rest, top, d).trace == t.Then(Interpret(w, rest[1..], top, d).trace)
  {
    hide Argument, Lists, NextNests, Generate, Course.Then;
    IdleDoesNothing(w, top, d);
    RestIsNeutral(Course(t, 1));
    AfterCourse(Course(t, 1), Interpret(w, rest[1..], top, d));
  }

  lemma AfterCourse(a: Course, b: Course)
    ensures a.Then(b).trace == a.trace.Then(b.trace)
  {
  }

  /** Settings are made one by one before whatever follows them. */
  lemma {:induction false} SettingsThenMore(w: World, settings: seq<Assignment>, more: seq<string>, top: bool, d: nat)
    requires (forall a <- settings :: CanSet(w, a)) && Nests(w, more, top, d)
    ensures Nests(w, Written(settings) + more, top, d)
    ensures Interpret(w, Written(settings) + more, top, d).trace
         == QUIET.(settings := settings).Then(Interpret(w, more, top, d).trace)
  {
    hide Argument, CanSet, Setting, NextNests, Generate;
    if settings == [] {
      assert Written(settings) + more == more;
    } else {
      var n := |settings| - 1;
      var a, rest := settings[n], [Setting(settings[n])] + more;
      SettingSets(w, a, more, top);
      assert rest[1..] == more;
      FirstArgumentRuns(w, rest, top, QUIET.(settings := [a]), d);
      SettingsThenMore(w, settings[..n], rest, top, d);
      assert Written(settings) + more == Written(settings[..n]) + rest;
      TraceThenAssociates(QUIET.(settings := settings[..n]), QUIET.(settings := [a]), Interpret(w, more, top, d).trace);
    }
  }

  /** Settings alone are made, and nothing else happens. */
  lemma WrittenSettingsAreMade(w: World, settings: seq<Assignment>, top: bool, d: nat)
    requires forall a <- settings :: CanSet(w, a)
    ensures Nests(w, Written(settings), top, d)
    ensures Interpret(w, Written(settings), top, d).trace == QUIET.(settings := settings)
  {
    hide CanSet, Setting, Written, FileArguments, Argument, NextNests, Generate;
    SettingsThenMore(w, settings, [], top, d);
    assert Written(settings) + [] == Written(settings);
    ThenQuiet(QUIET.(settings := settings));
  }

  /** The text of a file with the given lines. */
  function TextOf(lines: seq<string>): string {
    if lines == [] then "" else lines[0] + "\n" + TextOf(lines[1..])
  }

  lemma {:induction false} LinesOfText(lines: seq<string>)
    requires forall line <- lines :: '\n' !in line
    ensures Lines(TextOf(lines)) == lines
  {
    if lines != [] {
      var text := TextOf(lines);
      IndexOfFirst(lines[0], '\n', TextOf(lines[1..]));
      assert text == lines[0] + ['\n'] + TextOf(lines[1..]);
      assert text[..|lines[0]|] == lines[0] && text[|lines[0]| + 1..] == TextOf(lines[1..]);
      LinesOfText(lines[1..]);
    }
  }

  predicate IsOneLine(a: Assignment) {
    '\n' !in a.flag && '\n' !in a.value
  }

  lemma WrittenIsLines(settings: seq<Assignment>)
    requires forall a <- settings :: IsOneLine(a)
    ensures forall line <- Written(settings) :: '\n' !in line
  {
    WrittenAt(settings);
    forall line | line in Written(settings)
      ensures '\n' !in line
    {
      var i :| 0 <= i < |settings| && line == Setting(settings[i]);
      assert IsOneLine(settings[i]);
    }
  }

  /** A file of settings, one a line, is a flag file, and reading it makes exactly those settings. */
  lemma WrittenSettingsAreRead(w: World, file: string, settings: seq<Assignment>, d: nat)
    requires file in w.files && w.files[file] == TextOf(Written(settings))
    requires forall a <- settings :: CanSet(w, a) && IsOneLine(a)
    ensures Contents(w, file) == Some(Written(settings))
    ensures Nests(w, Written(settings), false, d)
    ensures Interpret(w, Written(settings), false, d).trace == QUIET.(settings := settings)
  {
    hide Written, CanSet, IsOneLine, Lines, FileArguments, Nests, Interpret, TextOf;
    WrittenIsLines(settings);
    LinesOfText(Written(settings));
    WrittenIsAFile(w, settings);
    WrittenSettingsAreMade(w, settings, false, d);
  }

  lemma DashesStop(w: World, more: seq<string>, d: nat)
    ensures Nests(w, ["--"] + more, true, d)
    ensures Interpret(w, ["--"] + more, true, d).trace == QUIET.(positional := more)
  {
    hide NextNests, Generate, NamedArgument;
    assert (["--"] + more)[1..] == more;
    assert Argument(w, ["--"] + more, true).stop;
  }

  /** On the command line, what follows "--" is positional, whatever it looks like. */
  lemma DashesEndTheFlags(w: World, settings: seq<Assignment>, more: seq<string>, d: nat)
    requires forall a <- settings :: CanSet(w, a)
    ensures Nests(w, Written(settings) + (["--"] + more), true, d)
    ensures Interpret(w, Written(settings) + (["--"] + more), true, d).trace
         == QUIET.(settings := settings, positional := more)
  {
    hide CanSet, Setting, Written, Nests, Interpret;
    DashesStop(w, more, d);
    SettingsThenMore(w, settings, ["--"] + more, true, d);
  }

  /** A flag file takes effect where it is named: after what is before it, and before what is after it. */
  lemma FlagfileTakesEffectInPlace(w: World, before: seq<Assignment>, file: string, inside: seq<Assignment>, after: seq<Assignment>)
    requires (forall a <- before + inside + after :: CanSet(w, a)) && forall a <- inside :: IsOneLine(a)
    requires file != "" && ',' !in file && file in w.files && w.files[file] == TextOf(Written(inside))
    requires "flagfile" in w.flags && w.flags["flagfile"] == Flag(false, false) && w.accepts("flagfile", file)
    ensures var args := Written(before) + ([Setting(Assignment("flagfile", file))] + Written(after));
      && Nests(w, args, true, 1)
      && Interpret(w, args, true, 1).trace
      == QUIET.(settings := before + [Assignment("flagfile", file)] + inside + after, flagfiles := [file])
  {
    hide CanSet, IsOneLine, Setting, Argument, Written, TextOf, Nests, Interpret, Trace.Then;
    var naming := Assignment("flagfile", file);
    var rest := [Setting(naming)] + Written(after);
    forall a | a in inside || a in after || a in before
      ensures CanSet(w, a)
    {
      assert a in before + inside + after;
    }
    FlagfileIsNamed(w, file, Written(after));
    FlagfileRuns(w, file, inside);
    WrittenSettingsAreMade(w, after, true, 1);
    assert rest[1..] == Written(after);
    GeneratorRuns(w, rest, IDLE.(flagfile := [file]), QUIET.(settings := [naming]));
    SettingsThenMore(w, before, rest, true, 1);
    InPlace(before, naming, inside, after, file);
  }

  lemma InPlace(before: seq<Assignment>, naming: Assignment, inside: seq<Assignment>, after: seq<Assignment>, file: string)
    ensures QUIET.(settings := before).Then(
              QUIET.(settings := [naming])
              .Then(QUIET.(settings := inside, flagfiles := [file]))
              .Then(QUIET.(settings := after)))
         == QUIET.(settings := before + [naming] + inside + after, flagfiles := [file])
  {
    assert before + ([naming] + inside + after) == before + [naming] + inside + after;
  }

  /** An argument that names lists has them run before the next one. */
  lemma GeneratorRuns(w: World, rest: seq<string>, g: Generators, t: Trace)
    requires rest != [] && Argument(w, rest, true) == Effect(t, 1, g, false) && t.alive
    requires NextNests(w, g, 1) && Nests(w, rest[1..], true, 1)
    ensures Nests(w, rest, true, 1)
    ensures Interpret(w, rest, true, 1).trace
         == t.Then(Generate(w, g, true, 1).trace).Then(Interpret(w, rest[1..], true, 1).trace)
  {
    hide Argument, Generate, NextNests, Course.Then;
    var here, next := Course(t, 1), Generate(w, g, true, 1);
    AfterCourse(here, next);
    AfterCourse(here.Then(next), Interpret(w, rest[1..], true, 1));
  }

  lemma FlagfileRuns(w: World, file: string, inside: seq<Assignment>)
    requires file in w.files && w.files[file] == TextOf(Written(inside))
    requires forall a <- inside :: CanSet(w, a) && IsOneLine(a)
    ensures NextNests(w, IDLE.(flagfile := [file]), 1)
    ensures Generate(w, IDLE.(flagfile := [file]), true, 1).trace == QUIET.(settings := inside, flagfiles := [file])
  {
    hide CanSet, IsOneLine, Written, TextOf, Lists, Contents, Nests, Interpret, Course.Then;
    WrittenSettingsAreRead(w, file, inside, 0);
    OneFileListed(w, file, inside);
    var run := Interpret(w, Written(inside), false, 0);
    RestIsNeutral(run);
    AfterCourse(Course(QUIET.(flagfiles := [file]), 0), run);
    assert InterpretAll(w, [Written(inside)], 0) == run;
  }

  lemma FlagfileIsNamed(w: World, file: string, more: seq<string>)
    requires file != "" && ',' !in file
    requires "flagfile" in w.flags && w.flags["flagfile"] == Flag(false, false) && w.accepts("flagfile", file)
    ensures Argument(w, [Setting(Assignment("flagfile", file))] + more, true)
         == Effect(QUIET.(settings := [Assignment("flagfile", file)]), 1, IDLE.(flagfile := [file]), false)
  {
    hide Argument, Setting, Pieces;
    SettingIsNamed(w, Assignment("flagfile", file), more, true);
    OnePiece(file);
  }

  lemma OnePiece(text: string)
    requires ',' !in text
    ensures Pieces(text) == [text]
  {
    IndexOfNone(text, ',');
  }

  lemma OneFileListed(w: World, file: string, inside: seq<Assignment>)
    requires Contents(w, file) == Some(Written(inside))
    ensures Lists(w, IDLE.(flagfile := [file])) == [Written(inside)]
    ensures Reading(w, IDLE.(flagfile := [file]), true) == QUIET.(flagfiles := [file])
  {
    hide Contents, EnvArguments, Written;
    assert FileLists(w, [file]) == [Written(inside)] + FileLists(w, []);
  }

  // Which files and which parts of the environment can be read to the end.

  /** Where a list of arguments comes from. */
  datatype Source = File(name: string) | Env(names: seq<string>, mustExist: bool)

  function ListOf(w: World, s: Source): Option<seq<string>> {
    match s
    case File(name) => Contents(w, name)
    case Env(names, mustExist) =>
      if names != [] && NamesAreGood(w, names, mustExist) then Some(EnvArguments(w, names)) else None
  }

  ghost predicate IsSource(g: Generators, s: Source) {
    match s
    case File(name) => name in g.flagfile
    case Env(names, mustExist) => names == if mustExist then g.fromenv else g.tryfromenv
  }

  type Ranking = Source -> Option<nat>

  ghost predicate SourcesBelow(w: World, g: Generators, rank: Ranking, r: nat) {
    forall s | IsSource(g, s) && ListOf(w, s).Some? :: rank(s).Some? && rank(s).value < r
  }

  /** Every source that the arguments name, and that gives a list, has a rank below r. */
  ghost predicate NamesBelow(w: World, rest: seq<string>, top: bool, rank: Ranking, r: nat)
    decreases |rest|
  {
    rest == [] ||
    var e := Argument(w, rest, top);
    e.Ends() || (SourcesBelow(w, e.next, rank, r) && NamesBelow(w, rest[e.used..], top, rank, r))
  }

  /** Every source that has a rank names only sources of lower rank. */
  ghost predicate IsRanking(w: World, rank: Ranking) {
    forall s | rank(s).Some? && ListOf(w, s).Some? :: NamesBelow(w, ListOf(w, s).value, false, rank, rank(s).value)
  }

  /** The lists that run are those that the sources give. */
  lemma WhereListed(w: World, g: Generators, l: seq<string>) returns (s: Source)
    requires l in Lists(w, g)
    ensures IsSource(g, s) && ListOf(w, s) == Some(l)
  {
    hide EnvArguments, FileLists, NamesAreGood, Contents;
    if l in FileLists(w, g.flagfile) {
      var f := ListedFile(w, g.flagfile, l);
      s := File(f);
    } else if l in EnvLists(w, g.fromenv, true) {
      s := Env(g.fromenv, true);
    } else {
      s := Env(g.tryfromenv, false);
    }
  }

  lemma {:induction false} ListedFile(w: World, files: seq<string>, l: seq<string>) returns (f: string)
    requires l in FileLists(w, files)
    ensures f in files && Contents(w, f) == Some(l)
  {
    if Contents(w, files[0]) == Some(l) {
      f := files[0];
    } else {
      f := ListedFile(w, files[1..], l);
    }
  }

  lemma IsListed(w: World, g: Generators, s: Source)
    requires IsSource(g, s) && ListOf(w, s).Some?
    ensures ListOf(w, s).value in Lists(w, g)
  {
    hide EnvArguments, NamesAreGood, Contents, FileLists;
    if s.File? {
      FileIsListed(w, g.flagfile, s.name);
    }
  }

  lemma {:induction false} FileIsListed(w: World, files: seq<string>, f: string)
    requires f in files && Contents(w, f).Some?
    ensures Contents(w, f).value in FileLists(w, files)
  {
    if f != files[0] {
      FileIsListed(w, files[1..], f);
    }
  }

  /** Ranked sources nest no deeper than their ranks. */
  lemma {:induction false} RankedNests(w: World, rest: seq<string>, top: bool, rank: Ranking, r: nat)
    requires IsRanking(w, rank) && NamesBelow(w, rest, top, rank, r)
    ensures Nests(w, rest, top, r)
    decreases r, |rest|, 1
  {
    hide Argument, Lists, IsRanking, SourcesBelow;
    if rest != [] {
      var e := Argument(w, rest, top);
      if !e.Ends() {
        RankedNextNests(w, e.next, rank, r);
        RankedNests(w, rest[e.used..], top, rank, r);
      }
    }
  }

  lemma {:induction false} RankedNextNests(w: World, g: Generators, rank: Ranking, r: nat)
    requires IsRanking(w, rank) && SourcesBelow(w, g, rank, r)
    ensures NextNests(w, g, r)
    decreases r, 0, 0
  {
    hide Argument, Lists, Nests, NamesBelow, IsSource, ListOf;
    if Lists(w, g) != [] {
      forall l | l in Lists(w, g)
        ensures r > 0 && Nests(w, l, false, r - 1)
      {
        var s := WhereListed(w, g, l);
        RankedNests(w, l, false, rank, rank(s).value);
        DeeperIsTheSame(w, l, false, rank(s).value, r - 1);
      }
      assert Lists(w, g)[0] in Lists(w, g);
    }
  }

  /** How deep the list of a source nests at least. */
  ghost function DepthOf(w: World, s: Source): (d: Option<nat>)
    ensures d.Some? ==> ListOf(w, s).Some? && Nests(w, ListOf(w, s).value, false, d.value)
    ensures forall k: nat :: ListOf(w, s).Some? && Nests(w, ListOf(w, s).value, false, k) ==> d.Some? && d.value <= k
  {
    if ListOf(w, s).Some? && exists k: nat :: Nests(w, ListOf(w, s).value, false, k) then
      var k: nat :| Nests(w, ListOf(w, s).value, false, k);
      Some(LeastDepth(w, ListOf(w, s).value, k))
    else None
  }

  ghost function Depths(w: World): Ranking {
    s => DepthOf(w, s)
  }

  ghost function LeastDepth(w: World, l: seq<string>, k: nat): (d: nat)
    requires Nests(w, l, false, k)
    ensures d <= k && Nests(w, l, false, d) && forall j: nat :: Nests(w, l, false, j) ==> d <= j
  {
    hide Nests;
    NotBelow(w, l, k);
    if k > 0 && Nests(w, l, false, k - 1) then LeastDepth(w, l, k - 1) else k
  }

  lemma NotBelow(w: World, l: seq<string>, k: nat)
    ensures k > 0 && !Nests(w, l, false, k - 1) ==> forall j: nat :: Nests(w, l, false, j) ==> k <= j
  {
    hide Nests, Interpret;
    forall j: nat | Nests(w, l, false, j) && j < k
      ensures Nests(w, l, false, k - 1)
    {
      DeeperIsTheSame(w, l, false, j, k - 1);
    }
  }

  /** What nests is ranked by how deep it nests. */
  lemma {:induction false} NestsAreRanked(w: World, rest: seq<string>, top: bool, d: nat)
    requires Nests(w, rest, top, d)
    ensures NamesBelow(w, rest, top, Depths(w), d)
    decreases |rest|
  {
    hide Argument, Lists, DepthOf;
    if rest != [] {
      var e := Argument(w, rest, top);
      if !e.Ends() {
        NextAreRanked(w, e.next, d);
        NestsAreRanked(w, rest[e.used..], top, d);
      }
    }
  }

  lemma NextAreRanked(w: World, g: Generators, d: nat)
    requires NextNests(w, g, d)
    ensures SourcesBelow(w, g, Depths(w), d)
  {
    hide Lists, Nests, ListOf;
    forall s | IsSource(g, s) && ListOf(w, s).Some?
      ensures DepthOf(w, s).Some? && DepthOf(w, s).value < d
    {
      IsListed(w, g, s);
      assert Nests(w, ListOf(w, s).value, false, d - 1);
    }
  }

  lemma DepthsAreARanking(w: World)
    ensures IsRanking(w, Depths(w))
  {
    hide Nests, ListOf, NamesBelow;
    forall s | DepthOf(w, s).Some? && ListOf(w, s).Some?
      ensures NamesBelow(w, ListOf(w, s).value, false, Depths(w), DepthOf(w, s).value)
    {
      NestsAreRanked(w, ListOf(w, s).value, false, DepthOf(w, s).value);
    }
  }

  /** Arguments nest to some depth if and only if what they can reach can be ranked, so that nothing names itself in the end. */
  lemma NestsIffRanked(w: World, rest: seq<string>, top: bool)
    ensures (exists d: nat :: Nests(w, rest, top, d)) <==>
            (exists rank: Ranking, r: nat :: IsRanking(w, rank) && NamesBelow(w, rest, top, rank, r))
  {
    hide Nests, NamesBelow, IsRanking, DepthOf;
    if d: nat :| Nests(w, rest, top, d) {
      DepthsAreARanking(w);
      NestsAreRanked(w, rest, top, d);
    }
    forall rank: Ranking, r: nat | IsRanking(w, rank) && NamesBelow(w, rest, top, rank, r)
      ensures Nests(w, rest, top, r)
    {
      RankedNests(w, rest, top, rank, r);
    }
  }

  // What the guard against recursion in the environment is worth.

  /** The generator flags can be reached under another name only negated, which takes no value. */
  lemma NegatedTakesNoValue(w: World, name: string, flag: string, isNegative: bool, value: string, rest: seq<string>)
    requires LocateFlag(w, name) == Some((flag, isNegative)) && flag != name && rest != []
    ensures DeduceFlagValue(w.flags[flag], value, isNegative, value == "", rest).value == ""
  {
    hide SplitNameAndValue;
  }

  /** A name that is a generator flag's and part of its value, with an equals sign between them. */
  predicate HidesGenerator(w: World, name: string, value: string) {
    var i := IndexOf(name, '=');
    i < |name| && SetsGenerator(w, name[..i], name[i + 1..] + "=" + value)
  }

  predicate SetsGenerator(w: World, name: string, value: string) {
    (name == "fromenv" || name == "tryfromenv") && name in w.flags && !w.flags[name].retired && w.accepts(name, value)
  }

  /** Read from the left, such a setting is a setting of the generator flag. */
  lemma SettingRespelt(name: string, value: string)
    requires IndexOf(name, '=') < |name|
    ensures var i := IndexOf(name, '=');
      Setting(Assignment(name, value)) == Setting(Assignment(name[..i], name[i + 1..] + "=" + value))
  {
    hide IndexOf;
    var i := IndexOf(name, '=');
    SplitAt(name, i);
    Regrouped("--", name[..i], "=", name[i + 1..], "=", value);
  }

  lemma SplitAt(text: string, i: nat)
    requires i < |text| && text[i] == '='
    ensures text == (text[..i] + "=") + text[i + 1..]
  {
  }

  lemma Regrouped(a: string, b: string, c: string, d: string, e: string, f: string)
    ensures ((a + ((b + c) + d)) + e) + f == ((a + b) + c) + ((d + e) + f)
  {
  }

  lemma NamedSetsGenerator(w: World, name: string, value: string, rest: seq<string>)
    requires rest != [] && ((name == "fromenv" || name == "tryfromenv") ==> value != "")
    ensures var e := NamedArgument(w, name, value, value == "", rest, false);
            e.used == 1 && (e.next.fromenv == e.next.tryfromenv == [] <==> !SetsGenerator(w, name, value))
  {
    hide DeduceFlagValue, LocateFlag, SplitList;
    if LocateFlag(w, name).Some? {
      var (flag, isNegative) := LocateFlag(w, name).value;
      if flag != name {
        NegatedTakesNoValue(w, name, flag, isNegative, value, rest);
        LocatedName(w, name);
      } else {
        LocatedName(w, name);
      }
    } else {
      LocatedName(w, name);
    }
  }

  lemma LocatedName(w: World, name: string)
    ensures name in w.flags ==> LocateFlag(w, name) == Some((name, false))
    ensures LocateFlag(w, name).Some? && LocateFlag(w, name).value.0 == name ==> name in w.flags && !LocateFlag(w, name).value.1
  {}

  lemma SettingOfFlag(w: World, name: string, value: string, rest: seq<string>)
    requires '=' !in name && ((name == "fromenv" || name == "tryfromenv") ==> value != "")
    ensures var e := Argument(w, [Setting(Assignment(name, value))] + rest, false);
            e.used == 1 && (e.next.fromenv == e.next.tryfromenv == [] <==> !SetsGenerator(w, name, value))
  {
    var a := Assignment(name, value);
    if name == "" {
      assert Setting(a)[1..] == "-" + "" + "=" + value;
      SettingSplits("", value);
    } else {
      NamedSetsGenerator(w, name, value, [Setting(a)] + rest);
      SettingIsNamed(w, a, rest, false);
    }
  }

  /**
   * A setting that the guard lets through makes the environment be read again if and only if its name
   * hides a generator flag in front of an equals sign.
   */
  lemma EnvironmentIsFlatIff(w: World, name: string, value: string, rest: seq<string>)
    requires name != "fromenv" && name != "tryfromenv"
    ensures var e := Argument(w, [Setting(Assignment(name, value))] + rest, false);
            e.used == 1 && (e.next.fromenv == e.next.tryfromenv == [] <==> !HidesGenerator(w, name, value))
  {
    hide Argument, Setting;
    var i := IndexOf(name, '=');
    if i < |name| {
      SettingRespelt(name, value);
      SettingOfFlag(w, name[..i], name[i + 1..] + "=" + value, rest);
    } else {
      assert name[..i] == name;
      SettingOfFlag(w, name, value, rest);
    }
  }

  /** The guard, which compares whole names, lets this one through, and the environment is read without end. */
  lemma EnvironmentCanNameItself(d: nat)
    ensures var w := World(map["fromenv" := Flag(false, false)], (flag, value) => true, (name, value) => false, map[],
                           map["FLAGS_fromenv=fromenv" := "fromenv"]);
      !Nests(w, ["--fromenv=fromenv=fromenv"], false, d)
  {
    hide Nests;
    var w := World(map["fromenv" := Flag(false, false)], (flag, value) => true, (name, value) => false, map[],
                   map["FLAGS_fromenv=fromenv" := "fromenv"]);
    NamesItself(w);
    NeverNests(w, ["--fromenv=fromenv=fromenv"], d);
  }

  /** Arguments that the first of them brings in again do not nest. */
  lemma {:induction false} NeverNests(w: World, args: seq<string>, d: nat)
    requires args != [] && !Argument(w, args, false).Ends() && args in Lists(w, Argument(w, args, false).next)
    ensures !Nests(w, args, false, d)
  {
    hide Argument, Lists;
    var g := Argument(w, args, false).next;
    if d > 0 {
      NeverNests(w, args, d - 1);
      assert !ListsNest(w, Lists(w, g), d - 1);
    }
    assert !NextNests(w, g, d);
  }

  lemma NamesItself(w: World)
    requires w.flags == map["fromenv" := Flag(false, false)] && w.accepts("fromenv", "fromenv=fromenv")
    requires w.env == map["FLAGS_fromenv=fromenv" := "fromenv"]
    ensures var args := ["--fromenv=fromenv=fromenv"]; var e := Argument(w, args, false);
            !e.Ends() && args in Lists(w, e.next)
  {
    hide Argument, Pieces, SplitList, Lists, EnvArguments, NameIsGood, IndexOf, LocateFlag;
    var value := "fromenv=fromenv";
    var a := Assignment("fromenv", value);
    SpeltOut();
    SettingIsNamed(w, a, [], false);
    LocatedName(w, "fromenv");
    OneName(value);
    NameIsGoodHere(w);
    OneFromEnv(w, value);
    ListedThen(w, IDLE.(fromenv := [value]));
  }

  lemma SpeltOut()
    ensures [Setting(Assignment("fromenv", "fromenv=fromenv"))] + [] == ["--fromenv=fromenv=fromenv"]
    ensures "--" + "fromenv=fromenv" + "=" + "fromenv" == "--fromenv=fromenv=fromenv"
    ensures '=' !in "fromenv"
  {
    assert Setting(Assignment("fromenv", "fromenv=fromenv")) == "--fromenv=fromenv=fromenv";
  }

  lemma OneName(value: string)
    requires value == "fromenv=fromenv"
    ensures SplitList(value) == [value]
  {
    assert ',' !in value;
    OnePiece(value);
  }

  lemma NameIsGoodHere(w: World)
    requires w.env == map["FLAGS_fromenv=fromenv" := "fromenv"]
    ensures NameIsGood(w, "fromenv=fromenv", true) && w.env["FLAGS_" + "fromenv=fromenv"] == "fromenv"
  {
    assert "FLAGS_" + "fromenv=fromenv" == "FLAGS_fromenv=fromenv";
    assert |"fromenv=fromenv"| == 15;
  }

  lemma ListedThen(w: World, g: Generators)
    requires g.fromenv != [] && NamesAreGood(w, g.fromenv, true)
    ensures EnvArguments(w, g.fromenv) in Lists(w, g)
  {
    hide EnvArguments, NamesAreGood, FileLists;
  }

  lemma OneFromEnv(w: World, name: string)
    requires NameIsGood(w, name, true)
    ensures EnvArguments(w, [name]) == ["--" + name + "=" + w.env["FLAGS_" + name]]
    ensures NamesAreGood(w, [name], true)
  {
    assert [name][..0] == [] && EnvArguments(w, []) == [];
  }

  // Files alone.

  /** No setting in the environment hides a generator flag; none does whose name has no equals sign. */
  ghost predicate IsFlatEnvironment(w: World) {
    forall name: string | "FLAGS_" + name in w.env :: !HidesGenerator(w, name, w.env["FLAGS_" + name])
  }

  lemma PlainNamesAreFlat(w: World)
    requires forall key <- w.env :: '=' !in key
    ensures IsFlatEnvironment(w)
  {
    forall name: string | "FLAGS_" + name in w.env
      ensures !HidesGenerator(w, name, w.env["FLAGS_" + name])
    {
      var key := "FLAGS_" + name;
      assert forall i: nat | i < |name| :: name[i] == key[i + 6];
    }
  }

  /** A bound above the ranks of the files. */
  function Above(files: seq<string>, rank: string -> nat): nat {
    if files == [] then 0 else Higher(rank(files[0]) + 1, Above(files[1..], rank))
  }

  function Higher(a: nat, b: nat): nat {
    if a >= b then a else b
  }

  lemma {:induction false} AboveAll(files: seq<string>, rank: string -> nat, f: string)
    requires f in files
    ensures rank(f) < Above(files, rank)
  {
    if f != files[0] {
      AboveAll(files[1..], rank, f);
    }
  }

  /** A bound above the ranks of the files that the arguments name themselves. */
  function FilesNamed(w: World, rest: seq<string>, top: bool, rank: string -> nat): nat
    decreases |rest|
  {
    if rest == [] then 0
    else
      var e := Argument(w, rest, top);
      if e.Ends() then 0 else Higher(Above(e.next.flagfile, rank), FilesNamed(w, rest[e.used..], top, rank))
  }

  /** A bound above those, and above the ranks of the files that they name through the environment. */
  function FilesReached(w: World, rest: seq<string>, top: bool, rank: string -> nat): nat
    decreases |rest|
  {
    if rest == [] then 0
    else
      var e := Argument(w, rest, top);
      if e.Ends() then 0
      else Higher(NextReached(w, e.next, rank), FilesReached(w, rest[e.used..], top, rank))
  }

  function NextReached(w: World, g: Generators, rank: string -> nat): nat {
    Higher(Above(g.flagfile, rank),
           Higher(FilesNamed(w, EnvArguments(w, g.fromenv), false, rank), FilesNamed(w, EnvArguments(w, g.tryfromenv), false, rank)))
  }

  /** Every file names only files of lower rank, itself or through the environment. */
  predicate IsFileRanking(w: World, rank: string -> nat) {
    forall f <- w.files :: Contents(w, f).Some? ==> FilesReached(w, Contents(w, f).value, false, rank) <= rank(f)
  }

  /** The rank of an environment list lies between those of the files that it names and those that name it. */
  function SourceRank(w: World, rank: string -> nat, s: Source): Option<nat> {
    match s
    case File(name) => Some(2 * rank(name) + 1)
    case Env(names, _) => Some(2 * FilesNamed(w, EnvArguments(w, names), false, rank))
  }

  function SourceRanks(w: World, rank: string -> nat): Ranking {
    s => SourceRank(w, rank, s)
  }

  lemma {:induction false} FilesRanked(w: World, rest: seq<string>, top: bool, rank: string -> nat, r: nat)
    requires FilesReached(w, rest, top, rank) <= r
    ensures NamesBelow(w, rest, top, SourceRanks(w, rank), 2 * r + 1)
    decreases |rest|
  {
    hide Argument, EnvArguments;
    if rest != [] {
      var e := Argument(w, rest, top);
      if !e.Ends() {
        forall s | IsSource(e.next, s) && ListOf(w, s).Some?
          ensures SourceRank(w, rank, s).value < 2 * r + 1
        {
          if s.File? { AboveAll(e.next.flagfile, rank, s.name); }
        }
        FilesRanked(w, rest[e.used..], top, rank, r);
      }
    }
  }

  lemma {:induction false} EnvArgumentAt(w: World, names: seq<string>, i: nat) returns (name: string)
    requires i < |EnvArguments(w, names)|
    ensures "FLAGS_" + name in w.env && name != "fromenv" && name != "tryfromenv"
    ensures EnvArguments(w, names)[i] == Setting(Assignment(name, w.env["FLAGS_" + name]))
  {
    var before := EnvArguments(w, names[..|names| - 1]);
    if i < |before| {
      name := EnvArgumentAt(w, names[..|names| - 1], i);
    } else {
      name := names[|names| - 1];
    }
  }

  lemma {:induction false} EnvRanked(w: World, names: seq<string>, i: nat, rank: string -> nat, r: nat)
    requires IsFlatEnvironment(w) && i <= |EnvArguments(w, names)|
    requires FilesNamed(w, EnvArguments(w, names)[i..], false, rank) <= r
    ensures NamesBelow(w, EnvArguments(w, names)[i..], false, SourceRanks(w, rank), 2 * r)
    decreases |EnvArguments(w, names)| - i
  {
    hide Argument, EnvArguments, HidesGenerator;
    var rest := EnvArguments(w, names)[i..];
    if rest != [] {
      var name := EnvArgumentAt(w, names, i);
      var value := w.env["FLAGS_" + name];
      assert rest == [Setting(Assignment(name, value))] + rest[1..];
      EnvironmentIsFlatIff(w, name, value, rest[1..]);
      var e := Argument(w, rest, false);
      if !e.Ends() {
        forall s | IsSource(e.next, s) && ListOf(w, s).Some?
          ensures SourceRank(w, rank, s).value < 2 * r
        {
          if s.File? { AboveAll(e.next.flagfile, rank, s.name); }
        }
        assert rest[1..] == EnvArguments(w, names)[i + 1..];
        EnvRanked(w, names, i + 1, rank, r);
      }
    }
  }

  lemma FileRankingIsRanking(w: World, rank: string -> nat)
    requires IsFileRanking(w, rank) && IsFlatEnvironment(w)
    ensures IsRanking(w, SourceRanks(w, rank))
  {
    hide NamesBelow, IsFlatEnvironment, FilesReached, FilesNamed, EnvArguments, NamesAreGood;
    forall s | ListOf(w, s).Some?
      ensures NamesBelow(w, ListOf(w, s).value, false, SourceRanks(w, rank), SourceRank(w, rank, s).value)
    {
      match s
      case File(name) => FilesRanked(w, Contents(w, name).value, false, rank, rank(name));
      case Env(names, _) =>
        assert EnvArguments(w, names)[0..] == EnvArguments(w, names);
        EnvRanked(w, names, 0, rank, FilesNamed(w, EnvArguments(w, names), false, rank));
    }
  }

  /**
   * If no setting in the environment hides a generator flag, and every file names only files of lower rank,
   * then whatever the arguments are, the nesting has a bound, and so parsing ends.
   */
  lemma RankedFilesNest(w: World, rest: seq<string>, top: bool, rank: string -> nat)
    requires IsFlatEnvironment(w) && IsFileRanking(w, rank)
    ensures Nests(w, rest, top, 2 * FilesReached(w, rest, top, rank) + 1)
  {
    hide NamesBelow, IsRanking, Nests, IsFileRanking, IsFlatEnvironment, FilesReached, SourceRanks;
    FileRankingIsRanking(w, rank);
    FilesRanked(w, rest, top, rank, FilesReached(w, rest, top, rank));
    RankedNests(w, rest, top, SourceRanks(w, rank), 2 * FilesReached(w, rest, top, rank) + 1);
  }
}
