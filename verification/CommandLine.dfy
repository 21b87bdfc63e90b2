/** What a whole command line means to the flag parser, item by item, whatever forms its items are written in. */
module CommandLine {
  import opened Optional
  import opened Flags

  datatype Form = WithEquals | AsNextArgument | BareName | Negated

  /** What may stand on a command line or, but for plain text, in a flag file. */
  datatype Item =
    | Sets(a: Assignment, form: Form)
    | Refused(a: Assignment)
    | Retired(a: Assignment)
    | Text(text: string)
    | Usage(name: string, value: string)
    | Unknown(name: string, value: string)
    | FlagFile(file: string, inside: seq<Item>)
    | FromEnvironment(names: seq<string>, mustExist: bool)

  // ----- how items are written -----

  function Joined(parts: seq<string>): string {
    if parts == [] then "" else if |parts| == 1 then parts[0] else parts[0] + "," + Joined(parts[1..])
  }

  function Spelling(item: Item): (args: seq<string>)
    ensures 1 <= |args| <= 2
  {
    match item
    case Sets(a, WithEquals) => [Setting(a)]
    case Sets(a, AsNextArgument) => ["--" + a.flag, a.value]
    case Sets(a, BareName) => ["--" + a.flag]
    case Sets(a, Negated) => ["--no" + a.flag]
    case Refused(a) => [Setting(a)]
    case Retired(a) => [Setting(a)]
    case Text(text) => [text]
    case Usage(name, value) => [Setting(Assignment(name, value))]
    case Unknown(name, value) => [Setting(Assignment(name, value))]
    case FlagFile(file, _) => [Setting(Assignment("flagfile", file))]
    case FromEnvironment(names, mustExist) =>
      [Setting(Assignment(if mustExist then "fromenv" else "tryfromenv", Joined(names)))]
  }

  function SpellingAll(items: seq<Item>): seq<string> {
    if items == [] then [] else Spelling(items[0]) + SpellingAll(items[1..])
  }

  predicate IsName(name: string) {
    name != "" && '=' !in name
  }

  predicate IsRegistered(w: World, name: string) {
    name in w.flags || (|name| >= 2 && name[0] == 'n' && name[1] == 'o' && name[2..] in w.flags)
  }

  predicate TakesValue(w: World, a: Assignment) {
    IsName(a.flag) && a.flag in w.flags && (w.flags[a.flag].isBool ==> a.value != "")
  }

  predicate NamesLists(w: World, flag: string, value: string) {
    flag in w.flags && w.flags[flag] == Flag(false, false) && w.accepts(flag, value)
  }

  predicate FormFits(w: World, a: Assignment, form: Form)
    requires a.flag in w.flags
  {
    match form
    case WithEquals => true
    case AsNextArgument => !w.flags[a.flag].isBool
    case BareName => w.flags[a.flag].isBool && a.value == "1"
    case Negated => w.flags[a.flag].isBool && a.value == "0" && "no" + a.flag !in w.flags
  }

  /** The settings that the environment holds for the names. */
  function FoundIn(w: World, names: seq<string>): seq<Assignment> {
    if names == [] then []
    else
      var name := names[|names| - 1];
      FoundIn(w, names[..|names| - 1]) + if "FLAGS_" + name in w.env then [Assignment(name, w.env["FLAGS_" + name])] else []
  }

  predicate CanRead(w: World, names: seq<string>, mustExist: bool) {
    && names != [] && Joined(names) != ""
    && (forall name <- names :: ',' !in name && name != "fromenv" && name != "tryfromenv")
    && (mustExist ==> forall name <- names :: "FLAGS_" + name in w.env)
    && NamesLists(w, if mustExist then "fromenv" else "tryfromenv", Joined(names))
    && forall a <- FoundIn(w, names) :: CanSet(w, a)
  }

  predicate IsText(text: string) {
    text == "" || text[0] != '-' || text == "-"
  }

  /** Everything but the items of a flag file. */
  predicate IsItem(w: World, item: Item, top: bool) {
    match item
    case Sets(a, form) => CanSet(w, a) && FormFits(w, a, form)
    case Refused(a) => TakesValue(w, a) && !w.flags[a.flag].retired && !w.accepts(a.flag, a.value)
    case Retired(a) => TakesValue(w, a) && w.flags[a.flag].retired
    case Text(text) => top && IsText(text)
    case Usage(name, value) => IsName(name) && !IsRegistered(w, name) && w.isUsage(name, value)
    case Unknown(name, value) => IsName(name) && !IsRegistered(w, name) && !w.isUsage(name, value)
    case FlagFile(file, inside) =>
      file != "" && ',' !in file && NamesLists(w, "flagfile", file) && Contents(w, file) == Some(SpellingAll(inside))
    case FromEnvironment(names, mustExist) => CanRead(w, names, mustExist)
  }

  predicate AreItems(w: World, items: seq<Item>, top: bool)
    decreases items
  {
    items == [] ||
    (&& IsItem(w, items[0], top)
     && (items[0].FlagFile? ==> AreItems(w, items[0].inside, false))
     && AreItems(w, items[1..], top))
  }

  // ----- what they mean -----

  /** The settings, in order: those that a file or the environment holds come where it is named. */
  function SettingsIn(w: World, items: seq<Item>): seq<Assignment>
    decreases items
  {
    if items == [] then []
    else
      (match items[0]
       case Sets(a, _) => [a]
       case FlagFile(file, inside) => [Assignment("flagfile", file)] + SettingsIn(w, inside)
       case FromEnvironment(names, mustExist) =>
         [Assignment(if mustExist then "fromenv" else "tryfromenv", Joined(names))] + FoundIn(w, names)
       case _ => []) + SettingsIn(w, items[1..])
  }

  function TextsIn(items: seq<Item>): seq<string> {
    if items == [] then []
    else (match items[0] case Text(text) => [text] case _ => []) + TextsIn(items[1..])
  }

  /** The names that no flag has, each with whether it stood on the command line itself. */
  function UnknownIn(items: seq<Item>, top: bool): seq<(bool, string)>
    decreases items
  {
    if items == [] then []
    else
      (match items[0]
       case Unknown(name, _) => [(top, name)]
       case FlagFile(_, inside) => UnknownIn(inside, false)
       case _ => []) + UnknownIn(items[1..], top)
  }

  function FilesIn(items: seq<Item>): seq<string> {
    if items == [] then []
    else (match items[0] case FlagFile(file, _) => [file] case _ => []) + FilesIn(items[1..])
  }

  predicate NoneRefused(items: seq<Item>)
    decreases items
  {
    items == [] ||
    (!items[0].Refused? && (items[0].FlagFile? ==> NoneRefused(items[0].inside)) && NoneRefused(items[1..]))
  }

  function Outcome(w: World, items: seq<Item>, top: bool): Trace {
    Trace(SettingsIn(w, items), if top then TextsIn(items) else [], UnknownIn(items, top),
          if top then FilesIn(items) else [], NoneRefused(items), true)
  }

  /** How deep files name files; the environment counts as a file. */
  function Depth(items: seq<Item>): nat
    decreases items
  {
    if items == [] then 0
    else
      var here := match items[0] case FlagFile(_, inside) => Depth(inside) + 1 case FromEnvironment(_, _) => 1 case _ => 0;
      Higher(here, Depth(items[1..]))
  }

  // ----- one item -----

  /** What an item that names no lists does by itself. */
  function Alone(item: Item, top: bool): Trace {
    match item
    case Sets(a, _) => QUIET.(settings := [a])
    case Refused(_) => FAILURE
    case Text(text) => QUIET.(positional := [text])
    case Unknown(name, _) => QUIET.(unrecognized := [(top, name)])
    case _ => QUIET
  }

  lemma SetsRuns(w: World, a: Assignment, form: Form, more: seq<string>, top: bool)
    requires CanSet(w, a) && FormFits(w, a, form)
    ensures Argument(w, Spelling(Sets(a, form)) + more, top)
         == Effect(QUIET.(settings := [a]), |Spelling(Sets(a, form))|, IDLE, false)
  {
    hide Argument, Setting;
    WrittenForms(w, a, more, top);
  }

  lemma RefusedRuns(w: World, a: Assignment, more: seq<string>, top: bool)
    requires TakesValue(w, a)
    requires w.flags[a.flag].retired || !w.accepts(a.flag, a.value)
    ensures Argument(w, [Setting(a)] + more, top)
         == Effect(if w.flags[a.flag].retired then QUIET else FAILURE, 1, IDLE, false)
  {
    hide Argument, Setting, SplitList;
    SettingIsNamed(w, a, more, top);
  }

  lemma UnknownRuns(w: World, name: string, value: string, more: seq<string>, top: bool)
    requires IsName(name) && !IsRegistered(w, name)
    ensures Argument(w, [Setting(Assignment(name, value))] + more, top)
         == Effect(if w.isUsage(name, value) then QUIET else QUIET.(unrecognized := [(top, name)]), 1, IDLE, false)
  {
    hide Argument, Setting, SplitList;
    SettingIsNamed(w, Assignment(name, value), more, top);
  }

  lemma TextRuns(w: World, text: string, more: seq<string>, top: bool)
    requires IsText(text)
    ensures Argument(w, [text] + more, top) == Effect(if top then QUIET.(positional := [text]) else ABORT, 1, IDLE, false)
  {
    hide NamedArgument, SplitNameAndValue;
  }

  lemma ItemAlone(w: World, item: Item, more: seq<string>, top: bool)
    requires IsItem(w, item, top) && !item.FlagFile? && !item.FromEnvironment?
    ensures Argument(w, Spelling(item) + more, top) == Effect(Alone(item, top), |Spelling(item)|, IDLE, false)
  {
    hide Argument, CanSet, FormFits, TakesValue, IsName, IsRegistered, IsText, Setting;
    match item
    case Sets(a, form) => SetsRuns(w, a, form, more, top);
    case Refused(a) => RefusedRuns(w, a, more, top);
    case Retired(a) => RefusedRuns(w, a, more, top);
    case Text(text) => TextRuns(w, text, more, top);
    case Usage(name, value) => UnknownRuns(w, name, value, more, top);
    case Unknown(name, value) => UnknownRuns(w, name, value, more, top);
    case _ =>
  }

  // ----- one item among others -----

  lemma ItemRuns(w: World, rest: seq<string>, k: nat, top: bool, t: Trace, g: Generators, d: nat)
    requires rest != [] && Argument(w, rest, top) == Effect(t, k, g, false) && t.alive
    requires NextNests(w, g, d) && Nests(w, rest[k..], top, d)
    ensures Nests(w, rest, top, d)
    ensures Interpret(w, rest, top, d).trace
         == t.Then(Generate(w, g, top, d).trace).Then(Interpret(w, rest[k..], top, d).trace)
  {
    hide Argument, Generate, NextNests, Course.Then;
    var here, next := Course(t, 1), Generate(w, g, top, d);
    AfterCourse(here, next);
    AfterCourse(here.Then(next), Interpret(w, rest[k..], top, d));
  }

  lemma AloneRuns(w: World, rest: seq<string>, k: nat, top: bool, t: Trace, d: nat)
    requires rest != [] && Argument(w, rest, top) == Effect(t, k, IDLE, false) && t.alive && Nests(w, rest[k..], top, d)
    ensures Nests(w, rest, top, d)
    ensures Interpret(w, rest, top, d).trace == t.Then(Interpret(w, rest[k..], top, d).trace)
  {
    hide Argument, Generate, NextNests, Interpret, Nests;
    IdleDoesNothing(w, top, d);
    ItemRuns(w, rest, k, top, t, IDLE, d);
    ThenQuiet(t);
  }

  /** A generator flag that names one list has that list run where it stands. */
  lemma OneListRuns(w: World, g: Generators, top: bool, list: seq<string>, d: nat)
    requires Lists(w, g) == [list] && Nests(w, list, false, d)
    ensures NextNests(w, g, d + 1)
    ensures Generate(w, g, top, d + 1).trace == Reading(w, g, top).Then(Interpret(w, list, false, d).trace)
  {
    hide Lists, Reading, Nests, Interpret, Course.Then;
    var run := Interpret(w, list, false, d);
    RestIsNeutral(run);
    AfterCourse(Course(Reading(w, g, top), 0), run);
    assert [list][1..] == [];
    assert InterpretAll(w, [list][1..], d) == REST;
    assert InterpretAll(w, [list], d) == run;
  }

  lemma {:induction false} PiecesOfJoined(parts: seq<string>)
    requires parts != [] && forall part <- parts :: ',' !in part
    ensures Pieces(Joined(parts)) == parts
  {
    if |parts| == 1 {
      OnePiece(parts[0]);
    } else {
      var text, tail := Joined(parts), Joined(parts[1..]);
      IndexOfFirst(parts[0], ',', tail);
      assert text == parts[0] + [','] + tail;
      assert text[..|parts[0]|] == parts[0] && text[|parts[0]| + 1..] == tail;
      PiecesOfJoined(parts[1..]);
    }
  }

  lemma NamingRuns(w: World, flag: string, value: string, list: seq<string>, more: seq<string>, top: bool)
    requires NamesLists(w, flag, value) && flag in {"flagfile", "fromenv", "tryfromenv"}
    requires value != "" && Pieces(value) == list
    ensures Argument(w, [Setting(Assignment(flag, value))] + more, top)
         == Effect(QUIET.(settings := [Assignment(flag, value)]), 1,
                   if flag == "flagfile" then IDLE.(flagfile := list)
                   else if flag == "fromenv" then IDLE.(fromenv := list)
                   else IDLE.(tryfromenv := list), false)
  {
    hide Argument, Setting, Pieces;
    SettingIsNamed(w, Assignment(flag, value), more, top);
  }

  lemma FileIsOneList(w: World, file: string, list: seq<string>, top: bool)
    requires Contents(w, file) == Some(list)
    ensures var g := IDLE.(flagfile := [file]);
      Lists(w, g) == [list] && Reading(w, g, top) == QUIET.(flagfiles := if top then [file] else [])
  {
    hide Contents, EnvArguments;
    assert FileLists(w, [file]) == [list] + FileLists(w, []);
  }

  lemma EnvironmentIsOneList(w: World, names: seq<string>, mustExist: bool, top: bool)
    requires CanRead(w, names, mustExist)
    ensures var g := if mustExist then IDLE.(fromenv := names) else IDLE.(tryfromenv := names);
      Lists(w, g) == [Written(FoundIn(w, names))] && Reading(w, g, top) == QUIET
  {
    hide Joined, CanSet, EnvArguments, Written, FoundIn, NamesLists;
    EnvironmentIsWritten(w, names);
    NothingToRead(w);
  }

  lemma {:induction false} EnvironmentIsWritten(w: World, names: seq<string>)
    requires forall name <- names :: name != "fromenv" && name != "tryfromenv"
    ensures EnvArguments(w, names) == Written(FoundIn(w, names))
  {
    if names != [] {
      var before, name := names[..|names| - 1], names[|names| - 1];
      assert name in names && forall n <- before :: n in names;
      EnvironmentIsWritten(w, before);
      if "FLAGS_" + name in w.env {
        var a := Assignment(name, w.env["FLAGS_" + name]);
        WrittenOneMore(FoundIn(w, before), a);
        assert FoundIn(w, names) == FoundIn(w, before) + [a];
        assert EnvArguments(w, names) == EnvArguments(w, before) + [Setting(a)];
      } else {
        assert FoundIn(w, names) == FoundIn(w, before);
      }
    }
  }

  lemma WrittenOneMore(settings: seq<Assignment>, a: Assignment)
    ensures Written(settings + [a]) == Written(settings) + [Setting(a)]
  {
    assert (settings + [a])[..|settings|] == settings;
  }

  lemma EnvironmentRuns(w: World, names: seq<string>, mustExist: bool, top: bool, d: nat)
    requires CanRead(w, names, mustExist) && d > 0
    ensures var g := if mustExist then IDLE.(fromenv := names) else IDLE.(tryfromenv := names);
      NextNests(w, g, d) && Generate(w, g, top, d).trace == QUIET.(settings := FoundIn(w, names))
  {
    hide CanSet, Written, Joined, FoundIn, Nests, Interpret, NextNests, Generate, Lists, Reading;
    EnvironmentIsOneList(w, names, mustExist, top);
    var found := FoundIn(w, names);
    WrittenSettingsAreMade(w, found, false, d - 1);
    OneListRuns(w, if mustExist then IDLE.(fromenv := names) else IDLE.(tryfromenv := names), top, Written(found), d - 1);
  }

  // ----- a whole list -----

  lemma OutcomeOfAlone(w: World, items: seq<Item>, top: bool)
    requires items != [] && !items[0].FlagFile? && !items[0].FromEnvironment? && (items[0].Text? ==> top)
    ensures Outcome(w, items, top) == Alone(items[0], top).Then(Outcome(w, items[1..], top))
    ensures Depth(items) == Depth(items[1..])
  {
  }

  lemma OutcomeOfFile(w: World, items: seq<Item>, top: bool)
    requires items != [] && items[0].FlagFile?
    ensures var (file, inside) := (items[0].file, items[0].inside);
      Outcome(w, items, top) ==
      QUIET.(settings := [Assignment("flagfile", file)])
      .Then(QUIET.(flagfiles := if top then [file] else []).Then(Outcome(w, inside, false)))
      .Then(Outcome(w, items[1..], top))
  {
    PartsOfFile(w, items, top);
    hide SettingsIn, UnknownIn, FilesIn, TextsIn, NoneRefused;
    var (file, inside) := (items[0].file, items[0].inside);
    var done := QUIET.(flagfiles := if top then [file] else []).Then(Outcome(w, inside, false));
    assert done == Trace(SettingsIn(w, inside), [], UnknownIn(inside, false), if top then [file] else [], NoneRefused(inside), true);
    assert QUIET.(settings := [Assignment("flagfile", file)]).Then(done)
        == done.(settings := [Assignment("flagfile", file)] + SettingsIn(w, inside));
  }

  lemma PartsOfFile(w: World, items: seq<Item>, top: bool)
    requires items != [] && items[0].FlagFile?
    ensures var (file, inside, rest) := (items[0].file, items[0].inside, items[1..]);
      && SettingsIn(w, items) == [Assignment("flagfile", file)] + SettingsIn(w, inside) + SettingsIn(w, rest)
      && UnknownIn(items, top) == UnknownIn(inside, false) + UnknownIn(rest, top)
      && FilesIn(items) == [file] + FilesIn(rest) && TextsIn(items) == TextsIn(rest)
      && NoneRefused(items) == (NoneRefused(inside) && NoneRefused(rest))
  {}

  lemma DepthOfFile(items: seq<Item>)
    requires items != [] && items[0].FlagFile?
    ensures Depth(items) >= Depth(items[0].inside) + 1 && Depth(items) >= Depth(items[1..])
  {}

  lemma OutcomeOfEnvironment(w: World, items: seq<Item>, top: bool)
    requires items != [] && items[0].FromEnvironment?
    ensures var (names, mustExist) := (items[0].names, items[0].mustExist);
      Outcome(w, items, top) ==
      QUIET.(settings := [Assignment(if mustExist then "fromenv" else "tryfromenv", Joined(names))])
      .Then(QUIET.(settings := FoundIn(w, names)))
      .Then(Outcome(w, items[1..], top))
    ensures Depth(items) >= 1 && Depth(items) >= Depth(items[1..])
  {
    hide FoundIn, Joined;
  }

  lemma FirstAlone(w: World, items: seq<Item>, tail: seq<string>, top: bool, d: nat)
    requires AreItems(w, items, top) && items != [] && !items[0].FlagFile? && !items[0].FromEnvironment?
    requires Nests(w, tail, top, d)
    ensures Nests(w, Spelling(items[0]) + tail, top, d)
    ensures Interpret(w, Spelling(items[0]) + tail, top, d).trace == Alone(items[0], top).Then(Interpret(w, tail, top, d).trace)
  {
    hide Argument, Nests, Interpret, Spelling, IsItem;
    var rest := Spelling(items[0]) + tail;
    ItemAlone(w, items[0], tail, top);
    assert rest[|Spelling(items[0])|..] == tail;
    AloneRuns(w, rest, |Spelling(items[0])|, top, Alone(items[0], top), d);
  }

  lemma FirstFile(w: World, file: string, list: seq<string>, tail: seq<string>, top: bool, d: nat)
    requires file != "" && ',' !in file && NamesLists(w, "flagfile", file) && Contents(w, file) == Some(list)
    requires Nests(w, tail, top, d + 1) && Nests(w, list, false, d)
    ensures Nests(w, [Setting(Assignment("flagfile", file))] + tail, top, d + 1)
    ensures Interpret(w, [Setting(Assignment("flagfile", file))] + tail, top, d + 1).trace ==
            QUIET.(settings := [Assignment("flagfile", file)])
            .Then(QUIET.(flagfiles := if top then [file] else []).Then(Interpret(w, list, false, d).trace))
            .Then(Interpret(w, tail, top, d + 1).trace)
  {
    hide Argument, Nests, Interpret, NextNests, Generate, Contents, Setting, NamesLists, Pieces, Lists, Reading;
    var naming := Assignment("flagfile", file);
    OnePiece(file);
    NamingRuns(w, "flagfile", file, [file], tail, top);
    FileIsOneList(w, file, list, top);
    OneListRuns(w, IDLE.(flagfile := [file]), top, list, d);
    var rest := [Setting(naming)] + tail;
    assert rest[1..] == tail;
    ItemRuns(w, rest, 1, top, QUIET.(settings := [naming]), IDLE.(flagfile := [file]), d + 1);
  }

  lemma FirstEnvironment(w: World, names: seq<string>, mustExist: bool, tail: seq<string>, top: bool, d: nat)
    requires CanRead(w, names, mustExist) && d > 0 && Nests(w, tail, top, d)
    ensures var naming := Assignment(if mustExist then "fromenv" else "tryfromenv", Joined(names));
      && Nests(w, [Setting(naming)] + tail, top, d)
      && Interpret(w, [Setting(naming)] + tail, top, d).trace ==
         QUIET.(settings := [naming])
         .Then(QUIET.(settings := FoundIn(w, names)))
         .Then(Interpret(w, tail, top, d).trace)
  {
    var naming := Assignment(if mustExist then "fromenv" else "tryfromenv", Joined(names));
    hide Argument, Nests, Interpret, NextNests, Generate, Setting, NamesLists, Pieces, Lists, Reading, FoundIn, Joined, CanSet;
    PiecesOfJoined(names);
    NamingRuns(w, naming.flag, naming.value, names, tail, top);
    EnvironmentRuns(w, names, mustExist, top, d);
    var rest := [Setting(naming)] + tail;
    assert rest[1..] == tail;
    var g := if mustExist then IDLE.(fromenv := names) else IDLE.(tryfromenv := names);
    ItemRuns(w, rest, 1, top, QUIET.(settings := [naming]), g, d);
  }

  lemma NothingFirst(w: World, top: bool, t: Trace)
    ensures Outcome(w, [], top).Then(t) == t
  {}

  lemma SpellingThenMore(items: seq<Item>, more: seq<string>)
    ensures items == [] ==> SpellingAll(items) + more == more
    ensures items != [] ==> SpellingAll(items) + more == Spelling(items[0]) + (SpellingAll(items[1..]) + more)
  {}

  /** Items have their outcome one by one, before whatever follows them. */
  lemma {:induction false} ItemsRun(w: World, items: seq<Item>, more: seq<string>, top: bool, d: nat)
    requires AreItems(w, items, top) && Depth(items) <= d && Nests(w, more, top, d)
    ensures Nests(w, SpellingAll(items) + more, top, d)
    ensures Interpret(w, SpellingAll(items) + more, top, d).trace
         == Outcome(w, items, top).Then(Interpret(w, more, top, d).trace)
    decreases items, 1
  {
    hide IsItem, Argument, Interpret, Nests, Outcome, Trace.Then, Depth, SpellingAll, AreItems;
    SpellingThenMore(items, more);
    if items == [] {
      NothingFirst(w, top, Interpret(w, more, top, d).trace);
    } else if items[0].FlagFile? {
      FileItemRuns(w, items, more, top, d);
    } else if items[0].FromEnvironment? {
      EnvironmentItemRuns(w, items, more, top, d);
    } else {
      OtherItemRuns(w, items, more, top, d);
    }
  }

  lemma {:induction false} FileItemRuns(w: World, items: seq<Item>, more: seq<string>, top: bool, d: nat)
    requires AreItems(w, items, top) && Depth(items) <= d && Nests(w, more, top, d)
    requires items != [] && items[0].FlagFile?
    ensures Nests(w, SpellingAll(items) + more, top, d)
    ensures Interpret(w, SpellingAll(items) + more, top, d).trace
         == Outcome(w, items, top).Then(Interpret(w, more, top, d).trace)
    decreases items, 0
  {
    hide Argument, Interpret, Nests, Outcome, Trace.Then, Depth, SpellingAll, NamesLists, Contents, Setting;
    var (file, inside) := (items[0].file, items[0].inside);
    var tail := SpellingAll(items[1..]) + more;
    SpellingThenMore(items, more);
    OutcomeOfFile(w, items, top);
    DepthOfFile(items);
    ItemsRun(w, items[1..], more, top, d);
    ItemsAloneRun(w, inside, d - 1);
    FirstFile(w, file, SpellingAll(inside), tail, top, d - 1);
    TraceThenAssociates(
      QUIET.(settings := [Assignment("flagfile", file)])
      .Then(QUIET.(flagfiles := if top then [file] else []).Then(Outcome(w, inside, false))),
      Outcome(w, items[1..], top), Interpret(w, more, top, d).trace);
  }

  lemma {:induction false} EnvironmentItemRuns(w: World, items: seq<Item>, more: seq<string>, top: bool, d: nat)
    requires AreItems(w, items, top) && Depth(items) <= d && Nests(w, more, top, d)
    requires items != [] && items[0].FromEnvironment?
    ensures Nests(w, SpellingAll(items) + more, top, d)
    ensures Interpret(w, SpellingAll(items) + more, top, d).trace
         == Outcome(w, items, top).Then(Interpret(w, more, top, d).trace)
    decreases items, 0
  {
    hide Argument, Interpret, Nests, Outcome, Trace.Then, Depth, SpellingAll, CanRead, FoundIn, Joined, Setting;
    var (names, mustExist) := (items[0].names, items[0].mustExist);
    var tail := SpellingAll(items[1..]) + more;
    SpellingThenMore(items, more);
    OutcomeOfEnvironment(w, items, top);
    ItemsRun(w, items[1..], more, top, d);
    FirstEnvironment(w, names, mustExist, tail, top, d);
    TraceThenAssociates(
      QUIET.(settings := [Assignment(if mustExist then "fromenv" else "tryfromenv", Joined(names))])
      .Then(QUIET.(settings := FoundIn(w, names))),
      Outcome(w, items[1..], top), Interpret(w, more, top, d).trace);
  }

  lemma {:induction false} OtherItemRuns(w: World, items: seq<Item>, more: seq<string>, top: bool, d: nat)
    requires AreItems(w, items, top) && Depth(items) <= d && Nests(w, more, top, d)
    requires items != [] && !items[0].FlagFile? && !items[0].FromEnvironment?
    ensures Nests(w, SpellingAll(items) + more, top, d)
    ensures Interpret(w, SpellingAll(items) + more, top, d).trace
         == Outcome(w, items, top).Then(Interpret(w, more, top, d).trace)
    decreases items, 0
  {
    assert items[0].Text? ==> top;
    hide IsItem, Argument, Interpret, Nests, Outcome, Trace.Then, Depth, SpellingAll, Spelling, Alone;
    var tail := SpellingAll(items[1..]) + more;
    SpellingThenMore(items, more);
    OutcomeOfAlone(w, items, top);
    ItemsRun(w, items[1..], more, top, d);
    FirstAlone(w, items, tail, top, d);
    TraceThenAssociates(Alone(items[0], top), Outcome(w, items[1..], top), Interpret(w, more, top, d).trace);
  }

  lemma {:induction false} ItemsAloneRun(w: World, items: seq<Item>, d: nat)
    requires AreItems(w, items, false) && Depth(items) <= d
    ensures Nests(w, SpellingAll(items), false, d)
    ensures Interpret(w, SpellingAll(items), false, d).trace == Outcome(w, items, false)
    decreases items, 2
  {
    assert SpellingAll(items) + [] == SpellingAll(items);
    ItemsRun(w, items, [], false, d);
    ThenQuiet(Outcome(w, items, false));
  }

  // ----- what parsing does -----

  lemma NothingMore(w: World, d: nat)
    ensures Nests(w, [], true, d) && Interpret(w, [], true, d).trace == QUIET
  {}

  /** A command line has the outcome of its items, and what follows a "--" is positional. */
  lemma CommandLineIsRead(w: World, program: string, items: seq<Item>, more: seq<string>, d: nat)
    requires AreItems(w, items, true) && Depth(items) <= d
    ensures var argv := [program] + SpellingAll(items);
      && NextNests(w, IDLE, d) && Nests(w, argv[1..], true, d)
      && Parsed(w, argv, IDLE, d) ==
         Trace(SettingsIn(w, items), [program] + TextsIn(items), UnknownIn(items, true), FilesIn(items), NoneRefused(items), true)
    ensures var argv := [program] + SpellingAll(items) + ["--"] + more;
      && Nests(w, argv[1..], true, d)
      && Parsed(w, argv, IDLE, d) ==
         Trace(SettingsIn(w, items), [program] + TextsIn(items) + more, UnknownIn(items, true), FilesIn(items),
               NoneRefused(items), true)
  {
    hide AreItems, Depth, Interpret, Nests, NextNests, Generate, SpellingAll, SettingsIn, TextsIn, UnknownIn, FilesIn, NoneRefused;
    IdleDoesNothing(w, true, d);
    DashesStop(w, more, d);
    NothingMore(w, d);
    assert SpellingAll(items) + [] == SpellingAll(items);
    ItemsRun(w, items, [], true, d);
    ItemsRun(w, items, ["--"] + more, true, d);
    assert ([program] + SpellingAll(items))[1..] == SpellingAll(items);
    assert ([program] + SpellingAll(items) + ["--"] + more)[1..] == SpellingAll(items) + (["--"] + more);
  }

  /** In a file or the environment a text that is no flag, or a "--", ends everything, after the items before it. */
  lemma TextInAFileAborts(w: World, items: seq<Item>, text: string, more: seq<string>, d: nat)
    requires AreItems(w, items, false) && Depth(items) <= d && (IsText(text) || text == "--")
    ensures var list := SpellingAll(items) + ([text] + more);
      && Nests(w, list, false, d)
      && Interpret(w, list, false, d).trace == Outcome(w, items, false).(alive := false)
  {
    hide AreItems, Depth, Argument, SpellingAll, SettingsIn, TextsIn, UnknownIn, FilesIn, NoneRefused, IsText, NextNests, Generate;
    if text == "--" {
      DashesAbort(w, more);
    } else {
      TextRuns(w, text, more, false);
    }
    ItemsRun(w, items, [text] + more, false, d);
  }

  lemma DashesAbort(w: World, more: seq<string>)
    ensures Argument(w, ["--"] + more, false) == Effect(ABORT, 1, IDLE, false)
  {
    hide NamedArgument;
  }

  /** One dash is as good as two. */
  lemma OneDashOrTwo(w: World, text: string, more: seq<string>, top: bool)
    requires text != "" && text[0] != '-'
    ensures Argument(w, ["-" + text] + more, top) == Argument(w, ["--" + text] + more, top)
  {
    hide NamedArgument;
    assert ("--" + text)[1..] == "-" + text && ("-" + text)[1..] == text;
    SplitsAlike(text);
    var (name, value, isEmptyValue) := SplitNameAndValue(text);
    if name != "" {
      NamedAlike(w, name, value, isEmptyValue, ["-" + text], ["--" + text], more, top);
    }
  }

  lemma SplitsAlike(text: string)
    requires text != "" && text[0] != '-'
    ensures SplitNameAndValue("-" + text) == SplitNameAndValue(text)
  {
    assert ("-" + text)[1..] == text;
  }

  lemma NamedAlike(w: World, name: string, value: string, isEmptyValue: bool, one: seq<string>, two: seq<string>,
                   more: seq<string>, top: bool)
    requires |one| == |two| == 1 && (isEmptyValue ==> value == "")
    ensures NamedArgument(w, name, value, isEmptyValue, one + more, top) == NamedArgument(w, name, value, isEmptyValue, two + more, top)
  {
    hide LocateFlag;
  }

  // ----- lists that are named before the command line -----

  datatype Named = Named(file: string, inside: seq<Item>)

  function FilesOf(files: seq<Named>): seq<string> {
    if files == [] then [] else [files[0].file] + FilesOf(files[1..])
  }

  function ListsOf(files: seq<Named>): seq<seq<string>> {
    if files == [] then [] else [SpellingAll(files[0].inside)] + ListsOf(files[1..])
  }

  predicate AreFiles(w: World, files: seq<Named>, d: nat) {
    forall f <- files ::
      Contents(w, f.file) == Some(SpellingAll(f.inside)) && AreItems(w, f.inside, false) && Depth(f.inside) <= d
  }

  /** One file after the other. */
  function OutcomeOfAll(w: World, files: seq<Named>): Trace {
    if files == [] then QUIET else Outcome(w, files[0].inside, false).Then(OutcomeOfAll(w, files[1..]))
  }

  predicate AreVariables(w: World, names: seq<string>, mustExist: bool) {
    && (forall name <- names :: name != "fromenv" && name != "tryfromenv" && (mustExist ==> "FLAGS_" + name in w.env))
    && forall a <- FoundIn(w, names) :: CanSet(w, a)
  }

  lemma {:induction false} FilesAreListed(w: World, files: seq<Named>, d: nat)
    requires AreFiles(w, files, d)
    ensures FileLists(w, FilesOf(files)) == ListsOf(files) && FilesAreGood(w, FilesOf(files))
  {
    hide Contents, AreItems, Depth, SpellingAll;
    if files != [] {
      assert files[0] in files && forall f <- files[1..] :: f in files;
      FilesAreListed(w, files[1..], d);
      assert FilesOf(files)[1..] == FilesOf(files[1..]);
    }
  }

  lemma {:induction false} FilesRun(w: World, files: seq<Named>, d: nat)
    requires AreFiles(w, files, d)
    ensures ListsNest(w, ListsOf(files), d) && InterpretAll(w, ListsOf(files), d).trace == OutcomeOfAll(w, files)
  {
    hide Contents, AreItems, Depth, SpellingAll, Nests, Interpret, Outcome, Course.Then, Trace.Then;
    if files != [] {
      assert files[0] in files && forall f <- files[1..] :: f in files;
      ItemsAloneRun(w, files[0].inside, d);
      FilesRun(w, files[1..], d);
      OneListFirst(w, SpellingAll(files[0].inside), ListsOf(files[1..]), d);
    }
  }

  lemma OneListFirst(w: World, list: seq<string>, lists: seq<seq<string>>, d: nat)
    requires Nests(w, list, false, d) && ListsNest(w, lists, d)
    ensures ListsNest(w, [list] + lists, d)
    ensures InterpretAll(w, [list] + lists, d).trace == Interpret(w, list, false, d).trace.Then(InterpretAll(w, lists, d).trace)
  {
    hide Nests, Interpret, Course.Then;
    assert ([list] + lists)[1..] == lists;
    AfterCourse(Interpret(w, list, false, d), InterpretAll(w, lists, d));
  }

  lemma VariablesFirst(w: World, names: seq<string>, mustExist: bool, lists: seq<seq<string>>, d: nat)
    requires AreVariables(w, names, mustExist) && ListsNest(w, lists, d)
    ensures NamesAreGood(w, names, mustExist)
    ensures ListsNest(w, EnvLists(w, names, mustExist) + lists, d)
    ensures InterpretAll(w, EnvLists(w, names, mustExist) + lists, d).trace
         == QUIET.(settings := FoundIn(w, names)).Then(InterpretAll(w, lists, d).trace)
  {
    hide Nests, Interpret, FoundIn, CanSet, InterpretAll, Written, EnvArguments, ListsNest;
    var found := FoundIn(w, names);
    if names == [] {
      NoVariables(w);
      assert EnvLists(w, names, mustExist) + lists == lists;
    } else {
      EnvironmentIsWritten(w, names);
      WrittenSettingsAreMade(w, found, false, d);
      OneListFirst(w, Written(found), lists, d);
    }
  }

  lemma NoVariables(w: World)
    ensures FoundIn(w, []) == []
  {}

  /**
   * Lists that wait when parsing begins run before the command line: what the environment may hold, what it must
   * hold, and then the files, from the first to the last.
   */
  lemma ListsBeforeAllElse(w: World, g: Generators, files: seq<Named>, d: nat)
    requires AreVariables(w, g.tryfromenv, false) && AreVariables(w, g.fromenv, true)
    requires g.flagfile == FilesOf(files) && AreFiles(w, files, d)
    ensures NextNests(w, g, d + 1)
    ensures Generate(w, g, true, d + 1).trace ==
            QUIET.(flagfiles := FilesOf(files))
            .Then(QUIET.(settings := FoundIn(w, g.tryfromenv) + FoundIn(w, g.fromenv)))
            .Then(OutcomeOfAll(w, files))
  {
    hide AreFiles, AreVariables, FoundIn, FilesOf, OutcomeOfAll, FileLists, ListsOf, EnvLists, NamesAreGood, FilesAreGood, InterpretAll, ListsNest, Course.Then;
    FilesAreListed(w, files, d);
    FilesRun(w, files, d);
    VariablesFirst(w, g.fromenv, true, ListsOf(files), d);
    VariablesFirst(w, g.tryfromenv, false, EnvLists(w, g.fromenv, true) + ListsOf(files), d);
    var lists := Lists(w, g);
    assert lists == EnvLists(w, g.tryfromenv, false) + (EnvLists(w, g.fromenv, true) + ListsOf(files));
    GenerateIs(w, g, d);
  }

  lemma GenerateIs(w: World, g: Generators, d: nat)
    requires ListsNest(w, Lists(w, g), d)
    ensures NextNests(w, g, d + 1)
    ensures Generate(w, g, true, d + 1).trace == Reading(w, g, true).Then(InterpretAll(w, Lists(w, g), d).trace)
  {
    hide Lists, Reading, Course.Then, ListsNest;
    AfterCourse(Course(Reading(w, g, true), 0), InterpretAll(w, Lists(w, g), d));
  }

  // ----- what a flag file holds -----

  predicate IsWhite(c: char) {
    c == ' ' || c == '\t' || c == '\n' || c as int == 11 || c as int == 12 || c == '\r'
  }

  datatype FileLine = Ignored(space: string, comment: string) | Argues(space: string, arg: string) {
    function Text(): string {
      space + if Ignored? then comment else arg
    }

    /** Blank, a comment, or an argument, after any white space. */
    predicate Valid() {
      && (forall c <- space :: IsWhite(c))
      && (Ignored? ==> comment == "" || comment[0] == '#')
      && (Argues? ==> arg != "" && arg[0] == '-' && arg != "--")
    }
  }

  function Texts(lines: seq<FileLine>): seq<string> {
    if lines == [] then [] else Texts(lines[..|lines| - 1]) + [lines[|lines| - 1].Text()]
  }

  function ArgumentsIn(lines: seq<FileLine>): seq<string> {
    if lines == [] then []
    else
      ArgumentsIn(lines[..|lines| - 1]) +
      match lines[|lines| - 1] case Argues(_, arg) => [arg] case Ignored(_, _) => []
  }

  lemma {:induction false} SpaceIsStripped(space: string, text: string)
    requires forall c <- space :: IsWhite(c)
    requires text != "" ==> text[0] in {'#', '-'}
    ensures StripLeading(space + text) == text
  {
    if space == "" {
      assert space + text == text;
    } else {
      assert (space + text)[1..] == space[1..] + text;
      assert IsWhite(space[0]) && forall c <- space[1..] :: c in space;
      SpaceIsStripped(space[1..], text);
    }
  }

  lemma {:induction false} TextsAreRead(lines: seq<FileLine>)
    requires forall line <- lines :: line.Valid()
    ensures FileArguments(Texts(lines)) == Some(ArgumentsIn(lines))
  {
    if lines != [] {
      var before, line := lines[..|lines| - 1], lines[|lines| - 1];
      assert line.Valid() && forall l <- before :: l.Valid();
      TextsAreRead(before);
      SpaceIsStripped(line.space, if line.Ignored? then line.comment else line.arg);
      OneMoreLine(Texts(before), line);
    }
  }

  lemma OneMoreLine(before: seq<string>, line: FileLine)
    requires line.Valid() && StripLeading(line.Text()) == if line.Ignored? then line.comment else line.arg
    requires FileArguments(before).Some?
    ensures FileArguments(before + [line.Text()])
         == Some(FileArguments(before).value + match line case Argues(_, arg) => [arg] case Ignored(_, _) => [])
  {
    hide StripLeading, FileLine.Text;
    var all, content := before + [line.Text()], StripLeading(line.Text());
    assert all[..|all| - 1] == before && all[|all| - 1] == line.Text();
    assert line.Argues? ==> content[0] == '-' && content != "--";
    assert FileArguments(before).value + [] == FileArguments(before).value;
  }

  /** A file of blank lines, comments and arguments is read as its arguments, in order. */
  lemma FileLinesAreRead(w: World, file: string, lines: seq<FileLine>)
    requires file in w.files && w.files[file] == TextOf(Texts(lines))
    requires forall line <- lines :: line.Valid() && '\n' !in line.Text()
    ensures Contents(w, file) == Some(ArgumentsIn(lines))
  {
    hide FileArguments, FileLine.Text, FileLine.Valid, Lines;
    TextsHaveNoBreaks(lines);
    LinesOfText(Texts(lines));
    TextsAreRead(lines);
  }

  lemma {:induction false} TextsHaveNoBreaks(lines: seq<FileLine>)
    requires forall line <- lines :: '\n' !in line.Text()
    ensures forall text <- Texts(lines) :: '\n' !in text
  {
    hide FileLine.Text;
    if lines != [] {
      var before, line := lines[..|lines| - 1], lines[|lines| - 1];
      assert line in lines && forall l <- before :: l in lines;
      TextsHaveNoBreaks(before);
    }
  }

  /** A single line that is none of these makes the whole file unreadable. */
  lemma {:induction false} OtherLineSpoilsTheFile(lines: seq<string>, i: nat)
    requires i < |lines| && lines[i] != "" && !IsSpace(lines[i][0])
    requires (lines[i][0] != '#' && lines[i][0] != '-') || lines[i] == "--"
    ensures FileArguments(lines) == None
  {
    if i < |lines| - 1 {
      OtherLineSpoilsTheFile(lines[..|lines| - 1], i);
    } else {
      assert StripLeading(lines[i]) == lines[i];
    }
  }
}
