/**
 * The decisions of the beautiful_output callback that are plain functions of
 * their inputs: the verbosity gate, the rules for task titles, the nested lookup in
 * variable dictionaries, tag filtering and the layout of the tag line, the
 * choice and order of the sections printed under a result, and the rewrite of
 * a result that carries an exception.
 */
module Rules {
  import opened Wrappers
  import opened PyStr
  import opened PyValue

  /** The colour names of the runner's configuration that the callback uses. */
  datatype Color =
    | NoColor | OkColor | ChangedColor | ErrorColor | SkipColor | UnreachableColor
    | DebugColor | VerboseColor | HighlightColor | WarnColor

  /** A play: its name and its host patterns. */
  datatype Play = Play(name: string, hosts: seq<string>)

  /** What evaluating a task's `when` clause for one host gives. */
  datatype Outcome = Holds | Fails | Raises

  /** The parts of a task the callback reads. `hostOutcomes` stands for the
   *  conditional evaluated against each host of the inventory, in order. */
  datatype Task = Task(
    name: string,
    hasWhen: bool,
    hasVariableManager: bool,
    action: string,
    args: Dict,
    hostOutcomes: seq<Outcome>)

  /** One titled block under a result line. */
  datatype Section = Section(title: string, body: Value)

  // ---------------------------------------------------------------- symbols

  /** `_symbol`, with the strings the file actually holds: the module is read
   *  as UTF-8, but its glyph literals were saved twice-encoded (the UTF-8
   *  bytes of each glyph read as Windows-1252), so each entry is two to five
   *  Latin characters, and bytes with no Windows-1252 character are missing. */
  const SymbolTable: map<string, string> := map[
    "success" := "\U{E2}\U{153}\U{201D}", "warning" := "\U{E2}\U{161}\U{A0}",
    "failure" := "\U{E2}\U{153}\U{2DC}", "dead" := "\U{E2}\U{153}",
    "yaml" := "\U{F0}\U{178}\U{2026}\U{A8}", "retry" := "\U{EF}\U{B8}\U{E2}\U{2020}\U{BB}",
    "loop" := "\U{E2}\U{2C6}\U{2018}", "arrow_right" := "\U{E2}\U{17E}\U{17E}",
    "skip" := "\U{E2}\U{A4}\U{BC}", "flag" := "\U{E2}\U{161}\U{2018}"]

  /** `symbol(key)`: the table entry, or `:key:` for an unknown key. No entry
   *  starts with a colon, so the colon form marks exactly the unknown keys. */
  function Symbol(key: string): (r: string)
    ensures |r| >= 2
    ensures r[0] == ':' <==> key !in SymbolTable
  {
    if key in SymbolTable then SymbolTable[key] else ":" + key + ":"
  }

  // -------------------------------------------------------------- verbosity

  /** `_is_run_verbose(result, verbosity)`: the display verbosity reaches the
   *  level, or the result asks to be shown always; a result that overrides
   *  verbosity is never shown. */
  function IsRunVerbose(displayVerbosity: int, result: Option<Dict>, verbosity: int): bool {
    var d := if result.Some? then result.value else [];
    (displayVerbosity >= verbosity || Has(d, "_ansible_verbose_always")) && !Has(d, "_ansible_verbose_override")
  }

  /** Without a result, the gate is just the display verbosity against the level. */
  lemma VerboseWithoutResult(displayVerbosity: int, verbosity: int)
    ensures IsRunVerbose(displayVerbosity, None, verbosity) <==> displayVerbosity >= verbosity
  {
    assert !Has([], "_ansible_verbose_always") && !Has([], "_ansible_verbose_override");
  }

  /** `_ansible_verbose_override` silences every level; `_ansible_verbose_always`
   *  otherwise opens every level. */
  lemma VerboseFlags(displayVerbosity: int, result: Dict, verbosity: int)
    ensures Has(result, "_ansible_verbose_override") ==> !IsRunVerbose(displayVerbosity, Some(result), verbosity)
    ensures Has(result, "_ansible_verbose_always") && !Has(result, "_ansible_verbose_override") ==>
      IsRunVerbose(displayVerbosity, Some(result), verbosity)
  {
  }

  /** Passing a higher level implies passing every lower one. */
  lemma VerboseMonotone(displayVerbosity: int, result: Option<Dict>, low: int, high: int)
    requires low <= high && IsRunVerbose(displayVerbosity, result, high)
    ensures IsRunVerbose(displayVerbosity, result, low)
  {
  }

  // ------------------------------------------------------ changed artifacts

  /** `changed_artifacts(result, status, color)`. */
  function ChangedArtifacts(result: Dict, status: string, color: Color): (r: (string, Color))
    ensures Has(result, "changed") && Truthy(GetOrNone(result, "changed")) ==> r == ("changed", ChangedColor)
    ensures !(Has(result, "changed") && Truthy(GetOrNone(result, "changed"))) ==> r == (status, color)
  {
    if Has(result, "changed") && Truthy(GetOrNone(result, "changed")) then ("changed", ChangedColor) else (status, color)
  }

  // -------------------------------------------------------- task titles

  /** `_get_task_display_name(task)`: the part of the stripped name after the
   *  last " : " (role tasks are named "role : task"), unless it starts with
   *  "include". */
  function TaskDisplayName(name: string): Option<string> {
    var last := LastPart(Strip(name), " : ");
    if StartsWith(last, "include") then None else Some(last)
  }

  /** The title shown for a task is a suffix of its stripped name, holds no
   *  " : " and never starts with "include"; include tasks have no title. */
  lemma TaskDisplayNameShape(name: string)
    ensures var last := LastPart(Strip(name), " : ");
      && (StartsWith(last, "include") <==> TaskDisplayName(name) == None)
      && (TaskDisplayName(name).Some? ==> TaskDisplayName(name).value == last)
      && |last| <= |Strip(name)| && last == Strip(name)[|Strip(name)| - |last|..]
      && forall j :: !OccursAt(last, " : ", j)
  {
    LastPartIsSuffix(Strip(name), " : ");
  }

  /** A role task "role : task" is shown as "task" when neither part holds a
   *  colon and the name has no surrounding whitespace. */
  lemma TaskDisplayNameOfRoleTask(role: string, task: string)
    requires role != [] && task != [] && !IsSpace(role[0]) && !IsSpace(task[|task| - 1])
    requires ':' !in role && ':' !in task && !StartsWith(task, "include")
    ensures TaskDisplayName(role + " : " + task) == Some(task)
  {
    var sep := " : ";
    var s := role + sep + task;
    assert Strip(s) == s by {
      assert s[0] == role[0] && s[|s| - 1] == task[|task| - 1];
      StripUntrimmed(s);
    }
    FindAfterRole(role, task);
    SplitWithoutColon(task);
    assert s[|role| + 3..] == task;
    assert Split(s, sep) == [s[..|role|]] + Split(task, sep);
  }

  /** The first " : " of "role : task" follows the role when the role holds no colon. */
  lemma FindAfterRole(role: string, task: string)
    requires ':' !in role
    ensures Find(role + " : " + task, " : ") == |role|
  {
    var sep := " : ";
    var s := role + sep + task;
    assert s[|role|..|role| + 3] == sep;
    assert OccursAt(s, sep, |role|);
    forall i | 0 <= i < |role| ensures !OccursAt(s, sep, i) {
      NoColonNoSeparator(s, i, |role|);
    }
  }

  /** A text without a colon is not split at all. */
  lemma SplitWithoutColon(task: string)
    requires ':' !in task
    ensures Split(task, " : ") == [task]
  {
    forall i | 0 <= i < |task| ensures !OccursAt(task, " : ", i) {
      NoColonNoSeparator(task, i, |task|);
    }
  }

  /** " : " cannot start at `i` when no colon is found in `s[..limit]` and,
   *  at the limit, none follows a blank at `i`. */
  lemma NoColonNoSeparator(s: string, i: int, limit: int)
    requires 0 <= i < limit <= |s|
    requires forall j :: 0 <= j < limit ==> s[j] != ':'
    requires limit < |s| ==> s[limit] == ' '
    ensures !OccursAt(s, " : ", i)
  {
    if i + 3 <= |s| {
      assert s[i..i + 3][1] == s[i + 1] != ':';
    }
  }

  /** The title a task start buffers: `name` or `"name (via handler)..."`. */
  function BufferedTitle(displayName: string, isHandler: bool): string {
    if isHandler then displayName + " (via handler)..." else displayName
  }

  // ---------------------------------------------------------- decision score

  /** `int(v)`: integers, booleans and decimal strings convert; anything else
   *  raises (here `None`). */
  function PyIntOf(v: Value): Option<int> {
    match v
    case IntV(i) => Some(i)
    case BoolV(b) => Some(if b then 1 else 0)
    case StrV(s) => ParseInt(s)
    case _ => None
  }

  /** The score `_display_task_decision_score` is meant to give, stated without
   *  its loop: with a `when` clause and a variable manager, 0.0 if the
   *  condition is false for some host, else 0.5 if evaluating it raised for
   *  some host, else 1.0; a debug task with a `verbosity` argument scores 1.0
   *  or 0.0 by the verbosity gate (`None`: `int()` raised); anything else 0.5. */
  function ScoreOf(task: Task, displayVerbosity: int): Option<real> {
    if task.hasWhen && task.hasVariableManager then
      Some(if Fails in task.hostOutcomes then 0.0 else if Raises in task.hostOutcomes then 0.5 else 1.0)
    else if task.action == "debug" && task.args != [] && Has(task.args, "verbosity") then
      match PyIntOf(GetOrNone(task.args, "verbosity"))
      case None => None
      case Some(level) => Some(if IsRunVerbose(displayVerbosity, None, level) then 1.0 else 0.0)
    else Some(0.5)
  }

  /** Only the three values 0.0, 0.5 and 1.0 occur. */
  lemma ScoreValues(task: Task, displayVerbosity: int)
    ensures ScoreOf(task, displayVerbosity).Some? ==>
      ScoreOf(task, displayVerbosity).value in {0.0, 0.5, 1.0}
  {
  }

  // ----------------------------------------------------- nested lookups

  /** The outcome of `get_chainned_value`: a value (Python's `None` included),
   *  or the `TypeError` raised when a key is looked up in something that is not
   *  a dictionary. */
  datatype Lookup = Returned(value: Value) | Raised

  /** `key in container` for a container that is not a dictionary: substring
   *  test in a string, membership in a list, `TypeError` otherwise. */
  function ContainsKey(container: Value, key: string): Option<bool> {
    match container
    case DictV(d) => Some(Has(d, key))
    case StrV(s) => Some(Find(s, key) >= 0)
    case ListV(items) => Some(StrV(key) in items)
    case _ => None
  }

  /** `get_chainned_value(mapping, *keys)`. Values are immutable here, so the
   *  shallow copy the source makes of a final dictionary is the value itself. */
  function GetChainedValue(mapping: Value, keys: seq<string>): Lookup
    decreases |keys|
  {
    if keys == [] then Returned(NoneV)
    else
      match ContainsKey(mapping, keys[0])
      case None => Raised
      case Some(false) => Returned(NoneV)
      case Some(true) =>
        if mapping.DictV? then
          var value := GetOrNone(mapping.entries, keys[0]);
          if |keys| > 1 then GetChainedValue(value, keys[1..]) else Returned(value)
        else Raised
  }

  /** Following `keys` through nested dictionaries only: the reference reading
   *  of a chain of subscripts `mapping[k1][k2]...`. */
  function FollowPath(mapping: Value, keys: seq<string>): Option<Value>
    decreases |keys|
  {
    if keys == [] then Some(mapping)
    else if mapping.DictV? && Has(mapping.entries, keys[0]) then
      FollowPath(GetOrNone(mapping.entries, keys[0]), keys[1..])
    else None
  }

  /** An empty chain gives `None`. */
  lemma GetChainedValueEmpty(mapping: Value)
    ensures GetChainedValue(mapping, []) == Returned(NoneV)
  {
  }

  /** A key missing from a dictionary gives `None`, whatever follows it. */
  lemma GetChainedValueMissing(d: Dict, key: string, rest: seq<string>)
    requires !Has(d, key)
    ensures GetChainedValue(DictV(d), [key] + rest) == Returned(NoneV)
  {
  }

  /** When the chain runs through dictionaries all the way, the lookup returns
   *  exactly the value found by subscripting. */
  lemma {:induction false} GetChainedValueFollows(mapping: Value, keys: seq<string>)
    requires keys != [] && FollowPath(mapping, keys).Some?
    ensures GetChainedValue(mapping, keys) == Returned(FollowPath(mapping, keys).value)
    decreases |keys|
  {
    if |keys| > 1 {
      GetChainedValueFollows(GetOrNone(mapping.entries, keys[0]), keys[1..]);
    }
  }

  /** Following a path in two steps is following the joined path. */
  lemma {:induction false} FollowPathAppend(mapping: Value, a: seq<string>, b: seq<string>)
    ensures FollowPath(mapping, a + b) ==
      match FollowPath(mapping, a)
      case None => None
      case Some(v) => FollowPath(v, b)
    decreases |a|
  {
    if a != [] {
      assert (a + b)[0] == a[0] && (a + b)[1..] == a[1..] + b;
      if mapping.DictV? && Has(mapping.entries, a[0]) {
        FollowPathAppend(GetOrNone(mapping.entries, a[0]), a[1..], b);
      }
    } else {
      assert a + b == b;
    }
  }

  /** The docstring's example: three keys deep into nested dictionaries. */
  lemma GetChainedValueExample()
    ensures
      var inner := DictV([("target_value", StrV("Found It!"))]);
      var middle := DictV([("other_key", StrV("other_value")), ("other_dict_key", inner)]);
      var crazy := DictV([("a_key", StrV("a_value")), ("dict_key", middle)]);
      GetChainedValue(crazy, ["dict_key", "other_dict_key", "target_value"]) == Returned(StrV("Found It!"))
  {
    var inner := DictV([("target_value", StrV("Found It!"))]);
    var middle := DictV([("other_key", StrV("other_value")), ("other_dict_key", inner)]);
    var crazy := DictV([("a_key", StrV("a_value")), ("dict_key", middle)]);
    var keys := ["dict_key", "other_dict_key", "target_value"];
    assert IndexOf(crazy.entries, "dict_key") == 1;
    assert IndexOf(middle.entries, "other_dict_key") == 1;
    assert IndexOf(inner.entries, "target_value") == 0;
    assert keys[1..] == ["other_dict_key", "target_value"];
    assert keys[1..][1..] == ["target_value"];
    assert FollowPath(inner, ["target_value"]) == Some(StrV("Found It!"));
    assert FollowPath(middle, keys[1..]) == Some(StrV("Found It!"));
    assert FollowPath(crazy, keys) == Some(StrV("Found It!"));
    GetChainedValueFollows(crazy, keys);
  }

  // ----------------------------------------------------------------- tags

  /** The union of the tags of all tasks, `tags.update(task.tags)` for each. */
  function CollectedTags(taskTags: seq<seq<string>>): (tags: set<string>)
    ensures forall t :: t in tags <==> exists i :: 0 <= i < |taskTags| && t in taskTags[i]
  {
    if taskTags == [] then {}
    else
      var init := taskTags[..|taskTags| - 1];
      assert forall i :: 0 <= i < |init| ==> init[i] == taskTags[i];
      var last := taskTags[|taskTags| - 1];
      CollectedTags(init) + set k | 0 <= k < |last| :: last[k]
  }

  /** The tag filter of `_get_tags`: with no `tags` argument the request is
   *  `{"all"}`; a request of exactly `{"all"}` keeps every tag, any other
   *  request keeps the intersection, and an empty request raises
   *  `StopIteration` (here `None`). */
  function FilterTags(tags: set<string>, requested: Option<set<string>>): Option<set<string>> {
    var req := if requested.Some? then requested.value else {"all"};
    if req == {} then None
    else if req == {"all"} then Some(tags)
    else Some(tags * req)
  }

  lemma FilterTagsCases(tags: set<string>, requested: Option<set<string>>)
    ensures requested == None ==> FilterTags(tags, requested) == Some(tags)
    ensures requested == Some({"all"}) ==> FilterTags(tags, requested) == Some(tags)
    ensures requested == Some({}) ==> FilterTags(tags, requested) == None
    ensures requested.Some? && requested.value != {} && requested.value != {"all"} ==>
      FilterTags(tags, requested) == Some(tags * requested.value)
    ensures FilterTags(tags, requested).Some? ==> FilterTags(tags, requested).value <= tags
  {
  }

  /** "all" is special only on its own: next to another tag it filters like any tag. */
  lemma FilterTagsAllWithOthers()
    ensures FilterTags({"db", "web"}, Some({"all", "web"})) == Some({"web"})
  {
    assert {"all", "web"} != {"all"} by { assert "web" in {"all", "web"}; }
    assert {"db", "web"} * {"all", "web"} == {"web"};
  }

  /** What precedes a tag in the tag line. */
  datatype Lead =
    | First   // "  ", the tag starts the text (or follows a wrapped tag)
    | Space   // " ", the tag continues the line
    | Wrap    // "\n\n  ", the tag starts a new line

  /** One tag's placement and `total_len` after it. */
  datatype Step = Step(lead: Lead, total: int)

  const TagOn: string := "\U{1B}[6;30;47m"
  const TagOff: string := "\U{1B}[0m"

  /** `"{0} {1} {2} {3}".format(on, symbol("flag"), tag, off)`. */
  function Badge(tag: string): string {
    TagOn + " " + Symbol("flag") + " " + tag + " " + TagOff
  }

  function LeadText(lead: Lead): string {
    match lead
    case First => "  "
    case Space => " "
    case Wrap => "\n\n  "
  }

  /** The loop of `_display_tag_strip` from `total_len` = `total` and
   *  `first_item` = `first`. */
  function Layout(tags: seq<string>, width: int, total: int, first: bool): (steps: seq<Step>)
    ensures |steps| == |tags|
    decreases |tags|
  {
    if tags == [] then []
    else
      var tag := tags[0];
      if !first then
        if total + |tag| + 5 > width then [Step(Wrap, |tag| + 6)] + Layout(tags[1..], width, |tag| + 6, true)
        else [Step(Space, total + |tag| + 5)] + Layout(tags[1..], width, total + |tag| + 5, false)
      else [Step(First, |tag| + 6)] + Layout(tags[1..], width, |tag| + 6, false)
  }

  /** The text the loop builds for the steps. */
  function Render(tags: seq<string>, steps: seq<Step>): string
    requires |steps| == |tags|
    decreases |tags|
  {
    if tags == [] then "" else LeadText(steps[0].lead) + Badge(tags[0]) + Render(tags[1..], steps[1..])
  }

  /** `tag_strings` at the end of `_display_tag_strip`'s loop. */
  function TagStrip(tags: seq<string>, width: int): string {
    Render(tags, Layout(tags, width, 0, true))
  }

  /** Step by step: the first tag leads; after a wrapped tag the next one leads
   *  again on the same line (the wrap sets `first_item`); otherwise a tag wraps
   *  exactly when the running length plus the tag and five would pass `width`. */
  lemma {:induction false} LayoutSteps(tags: seq<string>, width: int, total: int, first: bool, i: int)
    requires 0 <= i < |tags|
    ensures var steps := Layout(tags, width, total, first);
      var tag := tags[i];
      var leads := if i == 0 then first else steps[i - 1].lead == Wrap;
      var before := if i == 0 then total else steps[i - 1].total;
      && (leads ==> steps[i] == Step(First, |tag| + 6))
      && (!leads && before + |tag| + 5 > width ==> steps[i] == Step(Wrap, |tag| + 6))
      && (!leads && before + |tag| + 5 <= width ==> steps[i] == Step(Space, before + |tag| + 5))
    decreases |tags|
  {
    if i > 0 {
      var tag := tags[0];
      var nextTotal := if !first && total + |tag| + 5 <= width then total + |tag| + 5 else |tag| + 6;
      var nextFirst := !first && total + |tag| + 5 > width;
      var steps := Layout(tags, width, total, first);
      var rest := Layout(tags[1..], width, nextTotal, nextFirst);
      assert steps[1..] == rest && steps[0].total == nextTotal && (steps[0].lead == Wrap <==> nextFirst);
      assert tags[1..][i - 1] == tags[i];
      LayoutSteps(tags[1..], width, nextTotal, nextFirst, i - 1);
      assert steps[i] == rest[i - 1];
      if i > 1 {
        assert steps[i - 1] == rest[i - 2];
      }
    }
  }

  /** A tag that continues a line never brings the counted length past `width`,
   *  and a wrapped tag is always followed by a leading one. */
  lemma TagStripLines(tags: seq<string>, width: int, i: int)
    requires 0 <= i < |tags|
    ensures var steps := Layout(tags, width, 0, true);
      && (i == 0 ==> steps[i].lead == First)
      && (steps[i].lead == Space ==> steps[i].total <= width)
      && (steps[i].lead == Wrap && i + 1 < |tags| ==> steps[i + 1].lead == First)
  {
    LayoutSteps(tags, width, 0, true, i);
    if i + 1 < |tags| {
      LayoutSteps(tags, width, 0, true, i + 1);
    }
  }

  /** With a narrow line, the tag after a wrapped one is put on the wrapped
   *  tag's line: "bbbbbbbbbb" wraps, then "cccccccccc" follows it with "  ". */
  lemma TagStripWrapQuirk()
    ensures TagStrip(["aaaa", "bbbbbbbbbb", "cccccccccc"], 10) ==
      "  " + Badge("aaaa") + "\n\n  " + Badge("bbbbbbbbbb") + "  " + Badge("cccccccccc")
  {
    var tags := ["aaaa", "bbbbbbbbbb", "cccccccccc"];
    assert tags[1..] == ["bbbbbbbbbb", "cccccccccc"] && tags[1..][1..] == ["cccccccccc"];
    assert Layout(tags, 10, 0, true) == [Step(First, 10), Step(Wrap, 16), Step(First, 16)];
  }

  // ------------------------------------------------------ result sections

  /** `_session_order`: the sections of a result shown first, with the
   *  verbosity each needs. */
  const SessionOrder: seq<(string, int)> := [
    ("_ansible_no_log", 3), ("use_stderr", 4), ("msg", 1), ("stdout", 1),
    ("module_stdout", 1), ("stderr", 1), ("module_stderr", 1), ("rc", 3), ("changed", 3)]

  /** `_session_title`. */
  const SessionTitles: map<string, string> := map[
    "msg" := "Message", "stdout" := "Output", "stderr" := "Error output",
    "module_stdout" := "Module output", "module_stderr" := "Module error output",
    "rc" := "Return code", "changed" := "Environment changed",
    "_ansible_no_log" := "Omit logs", "use_stderr" := "Use STDERR to output"]

  function SessionTitle(key: string): string {
    if key in SessionTitles then SessionTitles[key] else key
  }

  /** The title of a section outside `_session_title`: `_` and `.` become
   *  spaces, then `capitalize`. */
  function ExtraTitle(key: string): string {
    Capitalize(ReplaceChar(ReplaceChar(key, '_', ' '), '.', ' '))
  }

  /** The first loop of `_process_result_output`, over `order`. */
  function OrderedSections(result: Dict, displayVerbosity: int, order: seq<(string, int)>): seq<Section>
    decreases |order|
  {
    if order == [] then []
    else
      var key := order[0].0;
      var rest := OrderedSections(result, displayVerbosity, order[1..]);
      if Has(result, key) && Truthy(GetOrNone(result, key)) && IsRunVerbose(displayVerbosity, Some(result), order[0].1)
      then [Section(SessionTitle(key), GetOrNone(result, key))] + rest
      else rest
  }

  /** The second loop of `_process_result_output`, over the result's `entries`
   *  in their order. */
  function ExtraSections(result: Dict, displayVerbosity: int, entries: Dict): seq<Section>
    decreases |entries|
  {
    if entries == [] then []
    else
      var (key, text) := entries[0];
      var rest := ExtraSections(result, displayVerbosity, entries[1..]);
      if key !in SessionTitles && Truthy(text) && IsRunVerbose(displayVerbosity, Some(result), 2)
      then [Section(ExtraTitle(key), text)] + rest
      else rest
  }

  /** The sections printed under a result line, in order. */
  function Sections(result: Dict, displayVerbosity: int): seq<Section> {
    OrderedSections(result, displayVerbosity, SessionOrder) + ExtraSections(result, displayVerbosity, result)
  }

  lemma {:induction false} OrderedSectionsNeedLevel(result: Dict, displayVerbosity: int, order: seq<(string, int)>, low: int)
    requires forall i :: 0 <= i < |order| ==> order[i].1 >= low
    requires !IsRunVerbose(displayVerbosity, Some(result), low)
    ensures OrderedSections(result, displayVerbosity, order) == []
    decreases |order|
  {
    if order != [] {
      OrderedSectionsNeedLevel(result, displayVerbosity, order[1..], low);
    }
  }

  lemma {:induction false} ExtraSectionsNeedLevel(result: Dict, displayVerbosity: int, entries: Dict)
    requires !IsRunVerbose(displayVerbosity, Some(result), 2)
    ensures ExtraSections(result, displayVerbosity, entries) == []
    decreases |entries|
  {
    if entries != [] {
      ExtraSectionsNeedLevel(result, displayVerbosity, entries[1..]);
    }
  }

  /** Below verbosity 1 (and without `_ansible_verbose_always`), or whenever the
   *  result carries `_ansible_verbose_override`, a result line has no sections. */
  lemma SectionsNeedVerbosity(result: Dict, displayVerbosity: int)
    requires !IsRunVerbose(displayVerbosity, Some(result), 1)
    ensures Sections(result, displayVerbosity) == []
  {
    OrderedSectionsNeedLevel(result, displayVerbosity, SessionOrder, 1);
    ExtraSectionsNeedLevel(result, displayVerbosity, result);
  }

  lemma {:induction false} OrderedSectionsAvoidTitle(result: Dict, displayVerbosity: int, order: seq<(string, int)>, title: string)
    requires forall i :: 0 <= i < |order| ==> SessionTitle(order[i].0) != title
    ensures forall s :: s in OrderedSections(result, displayVerbosity, order) ==> s.title != title
    decreases |order|
  {
    if order != [] {
      assert forall j :: 0 <= j < |order[1..]| ==> order[1..][j] == order[j + 1];
      OrderedSectionsAvoidTitle(result, displayVerbosity, order[1..], title);
    }
  }

  lemma {:induction false} OrderedSectionMember(result: Dict, displayVerbosity: int, order: seq<(string, int)>, i: int, v: Value)
    requires 0 <= i < |order|
    requires forall a, b :: 0 <= a < b < |order| ==> SessionTitle(order[a].0) != SessionTitle(order[b].0)
    ensures var key := order[i].0;
      Section(SessionTitle(key), v) in OrderedSections(result, displayVerbosity, order) <==>
        Has(result, key) && GetOrNone(result, key) == v && Truthy(v) && IsRunVerbose(displayVerbosity, Some(result), order[i].1)
    decreases |order|
  {
    var rest := OrderedSections(result, displayVerbosity, order[1..]);
    if i == 0 {
      assert forall j :: 0 <= j < |order[1..]| ==> order[1..][j] == order[j + 1];
      OrderedSectionsAvoidTitle(result, displayVerbosity, order[1..], SessionTitle(order[0].0));
    } else {
      OrderedSectionMember(result, displayVerbosity, order[1..], i - 1, v);
      assert order[1..][i - 1] == order[i];
    }
  }

  /** A section named in `_session_order` is shown, under its title, exactly when
   *  the result has that key with a truthy value and the key's verbosity level
   *  is reached. */
  lemma SessionSectionShown(result: Dict, displayVerbosity: int, i: int, v: Value)
    requires 0 <= i < |SessionOrder|
    ensures var key := SessionOrder[i].0;
      Section(SessionTitle(key), v) in OrderedSections(result, displayVerbosity, SessionOrder) <==>
        Has(result, key) && GetOrNone(result, key) == v && Truthy(v) && IsRunVerbose(displayVerbosity, Some(result), SessionOrder[i].1)
  {
    SessionTitlesDistinct();
    OrderedSectionMember(result, displayVerbosity, SessionOrder, i, v);
  }

  /** The titles of the session keys, in `_session_order`. */
  const SessionOrderTitles: seq<string> := [
    "Omit logs", "Use STDERR to output", "Message", "Output", "Module output",
    "Error output", "Module error output", "Return code", "Environment changed"]

  /** Each key of `_session_order` has its own title in `_session_title`. */
  lemma SessionTitlesDistinct()
    ensures forall a, b :: 0 <= a < b < |SessionOrder| ==> SessionTitle(SessionOrder[a].0) != SessionTitle(SessionOrder[b].0)
  {
    var titles := SessionOrderTitles;
    assert forall k :: 0 <= k < |SessionOrder| ==> SessionTitle(SessionOrder[k].0) == titles[k];
    forall a, b | 0 <= a < b < |titles| ensures titles[a] != titles[b] {
      assert |titles[a]| != |titles[b]| || titles[a][0] != titles[b][0];
    }
  }

  /** Every other key of the result with a truthy value is shown, under its
   *  rewritten title, from verbosity 2 on; and every extra section is such an
   *  entry: its body is the truthy value of a key outside `_session_title`, its
   *  title that key rewritten, and the level-2 gate passed. */
  lemma {:induction false} ExtraSectionShown(result: Dict, displayVerbosity: int, entries: Dict, key: string, v: Value)
    ensures (key, v) in entries && key !in SessionTitles && Truthy(v) && IsRunVerbose(displayVerbosity, Some(result), 2) ==>
      Section(ExtraTitle(key), v) in ExtraSections(result, displayVerbosity, entries)
    ensures forall s :: s in ExtraSections(result, displayVerbosity, entries) ==>
      Truthy(s.body) && IsRunVerbose(displayVerbosity, Some(result), 2)
    ensures forall s :: s in ExtraSections(result, displayVerbosity, entries) ==>
      exists k :: (k, s.body) in entries && k !in SessionTitles && s.title == ExtraTitle(k)
    decreases |entries|
  {
    if entries != [] {
      ExtraSectionShown(result, displayVerbosity, entries[1..], key, v);
      if (key, v) in entries && (key, v) != entries[0] {
        assert (key, v) in entries[1..];
      }
      forall s | s in ExtraSections(result, displayVerbosity, entries)
        ensures exists k :: (k, s.body) in entries && k !in SessionTitles && s.title == ExtraTitle(k)
      {
        if s in ExtraSections(result, displayVerbosity, entries[1..]) {
          var k :| (k, s.body) in entries[1..] && k !in SessionTitles && s.title == ExtraTitle(k);
          assert (k, s.body) in entries;
        } else {
          assert (entries[0].0, s.body) == entries[0];
        }
      }
    }
  }

  /** `s` is the section of an entry of `entries` whose key is outside
   *  `_session_title`, under that key's rewritten title. */
  ghost predicate FromExtraEntry(s: Section, entries: Dict) {
    exists k :: (k, s.body) in entries && k !in SessionTitles && s.title == ExtraTitle(k)
  }

  /** The `_session_order` sections come first, and every section after them is
   *  an extra one taken from an entry of the result outside `_session_title`. */
  lemma SessionSectionsComeFirst(result: Dict, displayVerbosity: int)
    ensures var all, ordered := Sections(result, displayVerbosity), OrderedSections(result, displayVerbosity, SessionOrder);
      && all[..|ordered|] == ordered
      && forall j :: |ordered| <= j < |all| ==> FromExtraEntry(all[j], result)
  {
    ExtraSectionShown(result, displayVerbosity, result, "", NoneV);
    ExtrasAfter(OrderedSections(result, displayVerbosity, SessionOrder), ExtraSections(result, displayVerbosity, result), result);
  }

  /** Sections taken from entries outside `_session_title`, appended after
   *  `ordered`, are exactly what follows `ordered`. */
  lemma ExtrasAfter(ordered: seq<Section>, extras: seq<Section>, entries: Dict)
    requires forall s :: s in extras ==> FromExtraEntry(s, entries)
    ensures (ordered + extras)[..|ordered|] == ordered
    ensures forall j :: |ordered| <= j < |ordered + extras| ==> FromExtraEntry((ordered + extras)[j], entries)
  {
    var all := ordered + extras;
    forall j | |ordered| <= j < |all|
      ensures FromExtraEntry(all[j], entries)
    {
      assert all[j] == extras[j - |ordered|];
      assert extras[j - |ordered|] in extras;
    }
    assert all[..|ordered|] == ordered;
  }

  /** `"{0}{1}{2} [{3}]".format(" " * indent, symbol + " " if symbol else "", host, status.upper())`:
   *  the indentation, then the symbol and a blank when there is one, and the
   *  line always ends with the host and the upper-cased status in brackets. */
  function ResultHead(indent: int, symbolChar: string, host: string, status: string): (r: string)
    ensures var lead := (if indent > 0 then indent else 0) + (if symbolChar != "" then |symbolChar| + 1 else 0);
      && |r| == lead + |host| + |status| + 3
      && r[lead..] == host + " [" + Upper(status) + "]"
    ensures forall k :: 0 <= k < indent ==> r[k] == ' '
  {
    var spaces := Repeat(' ', indent);
    var mark := if symbolChar != "" then symbolChar + " " else "";
    assert (spaces + mark + host + " [" + Upper(status) + "]")[..|spaces|] == spaces;
    assert (spaces + mark + host + " [" + Upper(status) + "]")[|spaces| + |mark|..] == host + " [" + Upper(status) + "]";
    spaces + mark + host + " [" + Upper(status) + "]"
  }

  /** Whether `delegated_vars` names a delegated host the line can show. */
  predicate ShowsDelegate(delegatedVars: Value) {
    Truthy(delegatedVars) && delegatedVars.DictV? && GetOrNone(delegatedVars.entries, "ansible_host").StrV?
  }

  /** `_get_host_string(result, prefix)`: the host name, and when its task was
   *  delegated the delegated `ansible_host` after an arrow. The name always
   *  leads; the line is longer exactly when a delegate is shown, and then ends
   *  with the prefixed delegate. */
  function HostString(prefix: string, hostName: string, delegatedVars: Value): (r: string)
    ensures |prefix + hostName| <= |r| && r[..|prefix + hostName|] == prefix + hostName
    ensures r == prefix + hostName <==> !ShowsDelegate(delegatedVars)
    ensures ShowsDelegate(delegatedVars) ==>
      var target := prefix + GetOrNone(delegatedVars.entries, "ansible_host").s;
      |target| <= |r| && r[|r| - |target|..] == target
  {
    var base := prefix + hostName;
    if ShowsDelegate(delegatedVars) then
      var target := prefix + GetOrNone(delegatedVars.entries, "ansible_host").s;
      var r := base + " " + Symbol("arrow_right") + " " + target;
      assert r[..|base|] == base;
      assert r[|r| - |target|..] == target;
      r
    else base
  }

  /** The label `_process_item_result_output` prints for an item: a dictionary
   *  item is named by its `name` entry, failing that by its `path` entry; any
   *  other item names itself. */
  function ItemLabel(item: Value): (r: Value)
    ensures !item.DictV? ==> r == item
    ensures item.DictV? && Has(item.entries, "name") ==> r == GetOrNone(item.entries, "name")
    ensures item.DictV? && !Has(item.entries, "name") && Has(item.entries, "path") ==> r == GetOrNone(item.entries, "path")
    ensures item.DictV? && !Has(item.entries, "name") && !Has(item.entries, "path") ==> r == item
  {
    if item.DictV? && Has(item.entries, "name") then GetOrNone(item.entries, "name")
    else if item.DictV? && Has(item.entries, "path") then GetOrNone(item.entries, "path")
    else item
  }

  // ------------------------------------------------------------ exceptions

  /** The exception text of a result is a string, as the runner stores it. */
  predicate ExceptionIsText(result: Dict) {
    Has(result, "exception") ==> GetOrNone(result, "exception").StrV?
  }

  const ExceptionIntro: string := "An exception occurred during task execution. "

  /** What `_handle_exception(result)` leaves in `result`; `verbose3` is
   *  `_is_run_verbose(verbosity=3)`. */
  function HandledResult(result: Dict, useStderr: bool, verbose3: bool): (r: Dict)
    requires UniqueKeys(result) && ExceptionIsText(result)
    ensures UniqueKeys(r)
  {
    if !Has(result, "exception") then result
    else
      var withFlag := Set(result, "use_stderr", BoolV(useStderr));
      var exc := GetOrNone(result, "exception").s;
      if !verbose3 then
        var error := LastPart(Strip(exc), "\n");
        Set(withFlag, "stderr", StrV(ExceptionIntro + "To see the full traceback, use -vvv. The error was: " + error))
      else if Has(withFlag, "module_stderr") then
        var msg := if GetOrNone(withFlag, "exception") != GetOrNone(withFlag, "module_stderr")
                   then "The full traceback is:\n" + exc else ExceptionIntro;
        Set(Del(withFlag, "exception"), "stderr", StrV(msg))
      else Set(withFlag, "stderr", StrV(ExceptionIntro))
  }

  /** A result without `exception` is left alone. With one: `use_stderr` and
   *  `stderr` are set, `exception` is removed only at verbosity 3 when there
   *  is a `module_stderr`, and every other key keeps its value. */
  lemma HandleExceptionEffect(result: Dict, useStderr: bool, verbose3: bool)
    requires UniqueKeys(result) && ExceptionIsText(result)
    ensures !Has(result, "exception") ==> HandledResult(result, useStderr, verbose3) == result
    ensures Has(result, "exception") ==>
      var r := HandledResult(result, useStderr, verbose3);
      && Get(r, "use_stderr") == Some(BoolV(useStderr))
      && Get(r, "stderr").Some? && Get(r, "stderr").value.StrV?
      && (Has(r, "exception") <==> !(verbose3 && Has(result, "module_stderr")))
      && (Has(r, "exception") ==> Get(r, "exception") == Get(result, "exception"))
      && forall k :: k != "use_stderr" && k != "stderr" && k != "exception" ==> Get(r, k) == Get(result, k)
  {
    if Has(result, "exception") {
      ResultKeysDistinct();
      var withFlag := Set(result, "use_stderr", BoolV(useStderr));
      var exc := GetOrNone(result, "exception").s;
      if !verbose3 {
        var error := LastPart(Strip(exc), "\n");
        SetTwice(result, "use_stderr", BoolV(useStderr), "stderr", StrV(ExceptionIntro + "To see the full traceback, use -vvv. The error was: " + error));
      } else if Has(withFlag, "module_stderr") {
        var msg := if GetOrNone(withFlag, "exception") != GetOrNone(withFlag, "module_stderr")
                   then "The full traceback is:\n" + exc else ExceptionIntro;
        SetDelSet(result, "use_stderr", BoolV(useStderr), "exception", "stderr", StrV(msg));
        assert Get(withFlag, "module_stderr") == Get(result, "module_stderr");
      } else {
        assert Get(withFlag, "module_stderr") == Get(result, "module_stderr");
        SetTwice(result, "use_stderr", BoolV(useStderr), "stderr", StrV(ExceptionIntro));
      }
    }
  }

  /** The keys `_handle_exception` touches are different keys. */
  lemma ResultKeysDistinct()
    ensures "use_stderr" != "stderr" && "use_stderr" != "exception" && "stderr" != "exception"
    ensures "module_stderr" != "use_stderr" && "module_stderr" != "stderr" && "module_stderr" != "exception"
  {
    assert |"use_stderr"| == 10 && |"stderr"| == 6 && |"exception"| == 9 && |"module_stderr"| == 13;
  }

  /** `d[a] = va; d[b] = vb` for two different keys. */
  lemma SetTwice(d: Dict, a: string, va: Value, b: string, vb: Value)
    requires a != b
    ensures var r := Set(Set(d, a, va), b, vb);
      && Get(r, a) == Some(va) && Get(r, b) == Some(vb)
      && forall k :: k != a && k != b ==> Get(r, k) == Get(d, k)
  {
  }

  /** `d[a] = va; del d[c]; d[b] = vb` for three different keys. */
  lemma SetDelSet(d: Dict, a: string, va: Value, c: string, b: string, vb: Value)
    requires UniqueKeys(d) && a != b && a != c && b != c
    ensures var r := Set(Del(Set(d, a, va), c), b, vb);
      && Get(r, a) == Some(va) && Get(r, b) == Some(vb) && !Has(r, c)
      && forall k :: k != a && k != b && k != c ==> Get(r, k) == Get(d, k)
  {
    var r1 := Set(d, a, va);
    var r2 := Del(r1, c);
    assert Get(r2, c).None?;
  }

  /** Below verbosity 3 the message ends with the last line of the stripped
   *  traceback, a text without line breaks. */
  lemma HandleExceptionBrief(result: Dict, useStderr: bool)
    requires UniqueKeys(result) && ExceptionIsText(result) && Has(result, "exception")
    ensures var r := HandledResult(result, useStderr, false);
      var error := LastPart(Strip(GetOrNone(result, "exception").s), "\n");
      && Get(r, "stderr") == Some(StrV(ExceptionIntro + "To see the full traceback, use -vvv. The error was: " + error))
      && forall j :: !OccursAt(error, "\n", j)
  {
    LastPartIsSuffix(Strip(GetOrNone(result, "exception").s), "\n");
  }

  /** At verbosity 3 with a `module_stderr` that differs from the traceback, the
   *  message is the full traceback; when the two are equal only the intro is
   *  kept. */
  lemma HandleExceptionTraceback(result: Dict, useStderr: bool)
    requires UniqueKeys(result) && ExceptionIsText(result) && Has(result, "exception") && Has(result, "module_stderr")
    ensures var r := HandledResult(result, useStderr, true);
      var exc := GetOrNone(result, "exception");
      && (exc != GetOrNone(result, "module_stderr") ==> Get(r, "stderr") == Some(StrV("The full traceback is:\n" + exc.s)))
      && (exc == GetOrNone(result, "module_stderr") ==> Get(r, "stderr") == Some(StrV(ExceptionIntro)))
  {
  }

  /** Handling the exception first does not change how a result is classed: a
   *  result is reported "changed" after `_handle_exception` exactly when it was
   *  before, since only `use_stderr`, `stderr` and `exception` are touched. */
  lemma ChangedArtifactsIgnoreException(result: Dict, useStderr: bool, verbose3: bool, status: string, color: Color)
    requires UniqueKeys(result) && ExceptionIsText(result)
    ensures ChangedArtifacts(HandledResult(result, useStderr, verbose3), status, color) == ChangedArtifacts(result, status, color)
  {
    assert |"changed"| == 7 && |"use_stderr"| == 10 && |"stderr"| == 6 && |"exception"| == 9;
    HandledKeepsOtherKey(result, useStderr, verbose3, "changed");
    SameEntry(HandledResult(result, useStderr, verbose3), result, "changed");
  }

  /** `_handle_exception` leaves every key but `use_stderr`, `stderr` and `exception` alone. */
  lemma HandledKeepsOtherKey(result: Dict, useStderr: bool, verbose3: bool, k: string)
    requires UniqueKeys(result) && ExceptionIsText(result)
    requires k != "use_stderr" && k != "stderr" && k != "exception"
    ensures Get(HandledResult(result, useStderr, verbose3), k) == Get(result, k)
  {
    HandleExceptionEffect(result, useStderr, verbose3);
  }

  /** Two dictionaries with the same entry for `k` agree on `k in d` and `d.get(k)`. */
  lemma SameEntry(d: Dict, e: Dict, k: string)
    requires Get(d, k) == Get(e, k)
    ensures Has(d, k) == Has(e, k) && GetOrNone(d, k) == GetOrNone(e, k)
  {
  }
}
