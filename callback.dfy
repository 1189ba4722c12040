/**
 * The `beautiful_output` stdout callback as an object: the runner calls its
 * `v2_*` event handlers and each handler appends lines to the screen output
 * (and the same lines, through one pass of the escape filter, to the log) and updates the
 * few fields the callback keeps between events: the buffered task title, the
 * current play and host, the delegated variables of the last result and the
 * "an item was shown" flag of a loop task.
 */
module Callback {
  import opened Wrappers
  import opened PyStr
  import opened PyValue
  import opened Columns
  import opened Ansi
  import opened Rules

  /** One call of `display`. A result line keeps its sections as titled values
   *  and an item line keeps its label as a value; both are rendered as text
   *  around them. */
  datatype Line =
    | Plain(text: string, color: Color)
    | ResultLine(head: string, sections: seq<Section>, color: Color)
    | ItemLine(prefix: string, item: Value, suffix: string, color: Color)

  /** What the log receives for a displayed line: its text after one pass of
   *  the escape filter, and no colour. */
  function LogCopy(line: Line): Line {
    match line
    case Plain(t, _) => Plain(StripEscapes(t), NoColor)
    case ResultLine(h, s, _) => ResultLine(StripEscapes(h), s, NoColor)
    case ItemLine(p, v, s, _) => ItemLine(StripEscapes(p), v, StripEscapes(s), NoColor)
  }

  /** What `_flush_display_buffer` shows for a buffer: its title, if truthy. */
  function Pending(buffer: Option<string>): seq<Line> {
    if buffer.Some? && buffer.value != "" then [Plain(buffer.value, NoColor)] else []
  }

  /** The buffer after `_flush_display_buffer`: emptied when it held a title to
   *  show, left as it was otherwise. */
  function Flushed(buffer: Option<string>): (r: Option<string>)
    ensures Pending(r) == []
    ensures Pending(buffer) == [] ==> r == buffer
  {
    if Pending(buffer) == [] then buffer else None
  }

  /** The title line of a play banner, `name` being the stripped play name. */
  function PlayTitle(name: string): string {
    if name != "" then Center("[PLAY: " + name + "]", 91, '-') else Center("[PLAY]", 80, '-')
  }

  /** The banner of `v2_playbook_on_play_start`. */
  function PlayBanner(play: Play): seq<Line> {
    [Plain(PlayTitle(Strip(play.name)), NoColor)] + HostBlock(play.hosts)
  }

  /** The framed host list under the play title; nothing without hosts. */
  function HostBlock(hosts: seq<string>): seq<Line> {
    if hosts == [] then []
    else [Plain("Hosts:", NoColor)] + HostLines(hosts) + [Plain(Repeat('-', 80), NoColor)]
  }

  function HostLines(hosts: seq<string>): (lines: seq<Line>)
    ensures |lines| == |hosts|
  {
    seq(|hosts|, i requires 0 <= i < |hosts| => Plain("  - " + hosts[i], NoColor))
  }

  /** The unnamed title is centred on 80 columns; a named one on 91 unless
   *  the name is too long for it. */
  lemma PlayTitleWidth(name: string)
    ensures name == "" ==> PlayTitle(name) == Repeat('-', 37) + "[PLAY]" + Repeat('-', 37)
    ensures name != "" ==> |PlayTitle(name)| == (if |name| + 8 < 91 then 91 else |name| + 8)
  {
    if name == "" {
      var s := "[PLAY]";
      assert |s| == 6 && (80 - |s|) / 2 == 37 && (80 - |s|) % 2 == 0;
    } else {
      assert |"[PLAY: " + name + "]"| == |name| + 8;
    }
  }

  /** A play with a name gets a title line at least 91 characters wide (80
   *  once the highlight codes around the name are counted) with the name in
   *  it, an unnamed play a line of 80; the host list, one line per host, is
   *  framed only when there are hosts. */
  lemma PlayBannerShape(play: Play)
    ensures var banner := PlayBanner(play);
      var name := Strip(play.name);
      && |banner| == (if play.hosts == [] then 1 else |play.hosts| + 3)
      && (name == "" ==> banner[0].text == Repeat('-', 37) + "[PLAY]" + Repeat('-', 37))
      && (name != "" ==> |banner[0].text| == (if |name| + 8 < 91 then 91 else |name| + 8))
      && forall i :: 0 <= i < |play.hosts| ==> banner[i + 2] == Plain("  - " + play.hosts[i], NoColor)
  {
    PlayTitleWidth(Strip(play.name));
    TitledHostBlock([Plain(PlayTitle(Strip(play.name)), NoColor)], play.hosts);
  }

  lemma TitledHostBlock(head: seq<Line>, hosts: seq<string>)
    requires |head| == 1
    ensures var banner := head + HostBlock(hosts);
      && |banner| == (if hosts == [] then 1 else |hosts| + 3)
      && banner[0] == head[0]
      && forall i :: 0 <= i < |hosts| ==> banner[i + 2] == Plain("  - " + hosts[i], NoColor)
  {
    if hosts != [] {
      var banner := head + HostBlock(hosts);
      var lines := HostLines(hosts);
      assert banner == head + [Plain("Hosts:", NoColor)] + lines + [Plain(Repeat('-', 80), NoColor)];
      forall i | 0 <= i < |hosts| ensures banner[i + 2] == Plain("  - " + hosts[i], NoColor) {
        assert banner[i + 2] == lines[i];
      }
    }
  }

  /** The line `_process_result_output` builds for a result. */
  function ResultReport(hostName: string, delegatedVars: Value, fields: Dict, displayVerbosity: int,
                        status: string, symbolChar: string, color: Color): Line {
    ResultLine(ResultHead(2, symbolChar, HostString("", hostName, delegatedVars), status),
               Sections(fields, displayVerbosity), color)
  }

  /** The line `_process_item_result_output` builds for an item. */
  function ItemReport(hostName: string, delegatedVars: Value, item: Value, status: string,
                      symbolChar: string, color: Color): Line {
    ItemLine(Repeat(' ', 4) + symbolChar + " ", ItemLabel(item),
             " (" + HostString("@", hostName, delegatedVars) + ") [" + Upper(status) + "]", color)
  }

  /** The header printed before the first item of a loop task. */
  function ItemsHeader(): Line {
    Plain("  " + Symbol("loop") + " Items:", NoColor)
  }

  /** The text of one row of the summary table per host. */
  function HostRows(hosts: seq<string>, stats: map<string, map<string, int>>): (rows: seq<Line>)
    requires forall h :: h in hosts ==> h in stats
    requires forall h :: h in stats ==> forall k :: k in SummaryKeys ==> k in stats[h]
    ensures |rows| == |hosts|
    decreases |hosts|
  {
    if hosts == [] then []
    else
      var last := hosts[|hosts| - 1];
      HostRows(hosts[..|hosts| - 1], stats) + [Plain(CountsRowText(last, stats[last]), NoColor)]
  }

  /** Everything `v2_playbook_on_stats` prints: the header, one row per host in
   *  sorted order, and the totals row. */
  ghost function StatsLines(stats: map<string, map<string, int>>): seq<Line>
    requires forall h :: h in stats ==> forall k :: k in SummaryKeys ==> k in stats[h]
  {
    var hosts := Sorted(stats.Keys);
    TotalsHaveColumns(hosts, stats);
    StatsHead() + HostRows(hosts, stats) + StatsFoot(FoldTotals(InitialTotals, hosts, stats))
  }

  /** The recap in its three parts, for the host order the sort produces. */
  lemma StatsLinesSplit(stats: map<string, map<string, int>>, hosts: seq<string>)
    requires forall h :: h in stats ==> forall k :: k in SummaryKeys ==> k in stats[h]
    requires hosts == Sorted(stats.Keys)
    ensures forall h :: h in hosts ==> h in stats
    ensures forall k :: k in SummaryKeys ==> k in FoldTotals(InitialTotals, hosts, stats)
    ensures StatsLines(stats) == StatsHead() + HostRows(hosts, stats) + StatsFoot(FoldTotals(InitialTotals, hosts, stats))
  {
    TotalsHaveColumns(hosts, stats);
  }

  /** The rule, the column titles and the double rule above the host rows. */
  function StatsHead(): seq<Line> {
    [Plain(Repeat('-', 80) + "\n\n", NoColor), Plain(HeaderText(), NoColor), Plain(SeparatorText('='), NoColor)]
  }

  /** The single rule and the totals row under the host rows. */
  function StatsFoot(totals: map<string, int>): seq<Line>
    requires forall k :: k in SummaryKeys ==> k in totals
  {
    [Plain(SeparatorText('-'), NoColor), Plain(CountsRowText("Totals", totals), NoColor)]
  }

  lemma TotalsHaveColumns(hosts: seq<string>, stats: map<string, map<string, int>>)
    requires forall h :: h in hosts ==> h in stats
    ensures forall k :: k in SummaryKeys ==> k in FoldTotals(InitialTotals, hosts, stats)
  {
    forall k | k in SummaryKeys ensures k in FoldTotals(InitialTotals, hosts, stats) {
      TotalsAreColumnSums(hosts, stats, k);
    }
  }

  /** The tag line without its highlight codes. */
  function PlainTagStrip(tags: seq<string>, steps: seq<Step>): string
    requires |steps| == |tags|
    decreases |tags|
  {
    if tags == [] then "" else LeadText(steps[0].lead) + " " + Symbol("flag") + " " + tags[0] + " " + PlainTagStrip(tags[1..], steps[1..])
  }

  /** The highlight codes around a tag are escape sequences. */
  lemma TagCodesAreSequences()
    ensures ShapedAt(TagOn, 7) && ShapedAt(TagOff, 1)
  {
  }

  /** The log copy of one tag: its lead and its text, the codes removed. */
  lemma BadgeLogCopy(lead: string, tag: string, rest: string)
    requires Esc !in lead && Esc !in tag
    ensures StripEscapes(lead + Badge(tag) + rest) == lead + " " + Symbol("flag") + " " + tag + " " + StripEscapes(rest)
  {
    FlagSymbol();
    TagCodesAreSequences();
    StripHighlighted(lead, TagOn, 7, Symbol("flag"), tag, TagOff, 1, rest);
  }

  /** The flag drawn before each tag. */
  lemma FlagSymbol()
    ensures Symbol("flag") == "\U{E2}\U{161}\U{2018}" && Esc !in Symbol("flag")
  {
  }

  /** A text between two escape sequences keeps only the text in the log. */
  lemma StripHighlighted(lead: string, on: string, q1: int, flag: string, tag: string, off: string, q2: int, rest: string)
    requires Esc !in lead && Esc !in flag && Esc !in tag
    requires ShapedAt(on, q1) && ShapedAt(off, q2)
    ensures StripEscapes(lead + (on + " " + flag + " " + tag + " " + off) + rest)
            == lead + " " + flag + " " + tag + " " + StripEscapes(rest)
  {
    var visible := " " + flag + " " + tag + " ";
    assert Esc !in visible;
    HighlightedPieces(lead, on, flag, tag, off, rest, StripEscapes(rest));
    StripAroundSequences(lead, on, q1, visible, off, q2, rest);
  }

  /** Regrouping the pieces of a highlighted tag. */
  lemma HighlightedPieces(lead: string, on: string, flag: string, tag: string, off: string, rest: string, tail: string)
    ensures lead + (on + " " + flag + " " + tag + " " + off) + rest
            == lead + on + (" " + flag + " " + tag + " ") + off + rest
    ensures lead + (" " + flag + " " + tag + " ") + tail == lead + " " + flag + " " + tag + " " + tail
  {
  }

  /** The log copy of the tag line is the tag line with each tag's highlight
   *  codes removed (for tags that hold no ESC themselves). */
  lemma {:induction false} TagStripLogCopy(tags: seq<string>, steps: seq<Step>)
    requires |steps| == |tags|
    requires forall i :: 0 <= i < |tags| ==> Esc !in tags[i]
    ensures StripEscapes(Render(tags, steps)) == PlainTagStrip(tags, steps)
    decreases |tags|
  {
    if tags != [] {
      var lead := LeadText(steps[0].lead);
      assert Esc !in lead by {
        assert lead == "  " || lead == " " || lead == "\n\n  ";
      }
      BadgeLogCopy(lead, tags[0], Render(tags[1..], steps[1..]));
      TagStripLogCopy(tags[1..], steps[1..]);
    }
  }

  lemma AppendAssoc<T>(a: seq<T>, b: seq<T>, c: seq<T>)
    ensures a + b + c == a + (b + c)
  {
  }

  lemma Triple<T>(a: T, b: T, c: T)
    ensures [a] + [b] + [c] == [a, b, c]
  {
  }

  lemma AppendAssoc4<T>(a: seq<T>, b: seq<T>, c: seq<T>, d: seq<T>)
    ensures a + b + c + d == a + (b + c + d)
  {
  }

  lemma HostLinesSnoc(hosts: seq<string>, i: int)
    requires 0 <= i < |hosts|
    ensures HostLines(hosts[..i + 1]) == HostLines(hosts[..i]) + [Plain("  - " + hosts[i], NoColor)]
  {
  }

  lemma HostRowsSnoc(hosts: seq<string>, i: int, stats: map<string, map<string, int>>)
    requires 0 <= i < |hosts|
    requires forall h :: h in hosts ==> h in stats
    requires forall h :: h in stats ==> forall k :: k in SummaryKeys ==> k in stats[h]
    ensures HostRows(hosts[..i + 1], stats) == HostRows(hosts[..i], stats) + [Plain(CountsRowText(hosts[i], stats[hosts[i]]), NoColor)]
  {
    assert hosts[..i + 1][..i] == hosts[..i];
  }

  /** One turn of the recap's loop over the hosts. */
  lemma HostRowsStep(prefix: seq<Line>, hosts: seq<string>, i: int, stats: map<string, map<string, int>>)
    requires 0 <= i < |hosts|
    requires forall h :: h in hosts ==> h in stats
    requires forall h :: h in stats ==> forall k :: k in SummaryKeys ==> k in stats[h]
    ensures prefix + HostRows(hosts[..i], stats) + [Plain(CountsRowText(hosts[i], stats[hosts[i]]), NoColor)]
            == prefix + HostRows(hosts[..i + 1], stats)
  {
    HostRowsSnoc(hosts, i, stats);
    AppendAssoc(prefix, HostRows(hosts[..i], stats), [Plain(CountsRowText(hosts[i], stats[hosts[i]]), NoColor)]);
  }

  /** One turn of `_display_tag_strip`'s loop. */
  lemma RenderStep(tags: seq<string>, width: int, total: int, first: bool, lead: Lead, next: int, wrap: bool)
    requires tags != []
    requires lead == if first then First else if total + |tags[0]| + 5 > width then Wrap else Space
    requires next == if lead == Space then total + |tags[0]| + 5 else |tags[0]| + 6
    requires wrap == (lead == Wrap)
    ensures Render(tags, Layout(tags, width, total, first)) ==
      LeadText(lead) + Badge(tags[0]) + Render(tags[1..], Layout(tags[1..], width, next, wrap))
  {
  }

  /** What one task start does to the screen and to the title buffer. */
  datatype TitleEffect = TitleEffect(shown: seq<Line>, buffer: Option<string>, raised: bool)

  /** The decision of `_display_task_name` for a task whose title is `name`
   *  and whose score is `score`, with `buffer` the title still buffered. */
  function TitleDecision(name: Option<string>, isHandler: bool, score: Option<real>, displaySkipped: bool,
                         buffer: Option<string>): TitleEffect {
    if name.None? || name.value == "" then TitleEffect([], buffer, false)
    else
      var title := BufferedTitle(name.value, isHandler);
      if score.None? then TitleEffect([], Some(title), true)
      else ScoredTitle(title, score.value, displaySkipped)
  }

  /** Show, drop or keep the buffered `title` by its score. */
  function ScoredTitle(title: string, score: real, displaySkipped: bool): TitleEffect {
    if score >= 1.0 || displaySkipped then TitleEffect([Plain(title, NoColor)], None, false)
    else if score < 0.1 then TitleEffect([], None, false)
    else TitleEffect([], Some(title), false)
  }

  /** An include task has no title: whatever title was buffered stays
   *  buffered, and is shown before the included tasks' first result. */
  lemma IncludeTaskKeepsBuffer(task: Task, isHandler: bool, displayVerbosity: int, displaySkipped: bool, buffer: Option<string>)
    requires StartsWith(LastPart(Strip(task.name), " : "), "include")
    ensures TitleDecision(TaskDisplayName(task.name), isHandler, ScoreOf(task, displayVerbosity), displaySkipped, buffer)
      == TitleEffect([], buffer, false)
  {
  }

  /** A title is shown at most once: if it is shown it is no longer
   *  buffered, and otherwise nothing is shown. */
  lemma TitleShownOnce(name: Option<string>, isHandler: bool, score: Option<real>, displaySkipped: bool, buffer: Option<string>)
    ensures var effect := TitleDecision(name, isHandler, score, displaySkipped, buffer);
      && |effect.shown| <= 1
      && (effect.shown != [] ==> effect.buffer == None && effect.shown == [Plain(BufferedTitle(name.value, isHandler), NoColor)])
      && (effect.raised ==> effect.shown == [])
  {
  }

  /** A task with a titled name and a `when` clause that is false for some
   *  host shows no title and drops it, unless skipped hosts are displayed;
   *  one whose clause holds for every host is titled at once. */
  lemma ConditionDecidesTitle(task: Task, isHandler: bool, displayVerbosity: int, displaySkipped: bool, buffer: Option<string>)
    requires TaskDisplayName(task.name).Some? && TaskDisplayName(task.name).value != ""
    requires task.hasWhen && task.hasVariableManager
    ensures Fails in task.hostOutcomes && !displaySkipped ==>
      TitleDecision(TaskDisplayName(task.name), isHandler, ScoreOf(task, displayVerbosity), displaySkipped, buffer)
        == TitleEffect([], None, false)
    ensures (forall i :: 0 <= i < |task.hostOutcomes| ==> task.hostOutcomes[i] == Holds) ==>
      TitleDecision(TaskDisplayName(task.name), isHandler, ScoreOf(task, displayVerbosity), displaySkipped, buffer)
        == TitleEffect([Plain(BufferedTitle(TaskDisplayName(task.name).value, isHandler), NoColor)], None, false)
  {
    var name := TaskDisplayName(task.name);
    var title := BufferedTitle(name.value, isHandler);
    if Fails in task.hostOutcomes {
      assert ScoreOf(task, displayVerbosity) == Some(0.0);
      assert !displaySkipped ==> ScoredTitle(title, 0.0, displaySkipped) == TitleEffect([], None, false);
    }
    if forall i :: 0 <= i < |task.hostOutcomes| ==> task.hostOutcomes[i] == Holds {
      assert Fails !in task.hostOutcomes && Raises !in task.hostOutcomes;
      assert ScoreOf(task, displayVerbosity) == Some(1.0);
      assert ScoredTitle(title, 1.0, displaySkipped) == TitleEffect([Plain(title, NoColor)], None, false);
    }
  }

  /** A task that cannot be decided (no `when`, not a verbosity-gated debug
   *  task) keeps its title buffered until its first shown result. */
  lemma UndecidedTitleWaits(task: Task, isHandler: bool, displayVerbosity: int, buffer: Option<string>)
    requires TaskDisplayName(task.name).Some? && TaskDisplayName(task.name).value != ""
    requires !(task.hasWhen && task.hasVariableManager) && task.action != "debug"
    ensures TitleDecision(TaskDisplayName(task.name), isHandler, ScoreOf(task, displayVerbosity), false, buffer)
      == TitleEffect([], Some(BufferedTitle(TaskDisplayName(task.name).value, isHandler)), false)
  {
  }

  /** A task result: its host, the label the base class picks for an item
   *  (`_get_item_label`), and the result dictionary, which handlers rewrite in
   *  place. */
  class TaskResult {
    const hostName: string
    const itemLabel: Value
    var fields: Dict

    constructor (hostName: string, itemLabel: Value, fields: Dict)
      ensures this.hostName == hostName && this.itemLabel == itemLabel && this.fields == fields
    {
      this.hostName := hostName;
      this.itemLabel := itemLabel;
      this.fields := fields;
    }
  }

  class CallbackModule {
    /** `self._display.verbosity`. */
    const verbosity: int
    /** `C.DISPLAY_SKIPPED_HOSTS`. */
    const displaySkippedHosts: bool

    /** What was displayed on the screen. */
    var screen: seq<Line>

    var delegatedVars: Value
    var itemProcessed: bool
    var currentPlay: Option<Play>
    var currentHost: Option<string>
    var taskNameBuffer: Option<string>
    var taskDisplayName: Option<string>

    /** What went to the log: each screen line's log copy, in the same order. */
    function LogLines(): (lines: seq<Line>)
      reads this
      ensures |lines| == |screen|
      ensures forall i :: 0 <= i < |screen| ==> lines[i] == LogCopy(screen[i])
    {
      seq(|screen|, i requires 0 <= i < |screen| reads this => LogCopy(screen[i]))
    }

    /** `__init__`. */
    constructor (verbosity: int, displaySkippedHosts: bool)
      ensures screen == []
      ensures this.verbosity == verbosity && this.displaySkippedHosts == displaySkippedHosts
      ensures delegatedVars == NoneV && !itemProcessed && currentPlay == None && currentHost == None
      ensures taskNameBuffer == None && taskDisplayName == None
    {
      this.verbosity := verbosity;
      this.displaySkippedHosts := displaySkippedHosts;
      screen := [];
      delegatedVars := NoneV;
      itemProcessed := false;
      currentPlay := None;
      currentHost := None;
      taskNameBuffer := None;
      taskDisplayName := None;
    }

    /** `display(msg, color)`: the line goes to the screen as it is and to the
     *  log through the escape filter. */
    method Display(line: Line)
      modifies this`screen
      ensures screen == old(screen) + [line]
      ensures LogLines() == old(LogLines()) + [LogCopy(line)]
    {
      screen := screen + [line];
    }

    /** A plain line whose text holds no escape character reaches the log as it
     *  was shown, only without its colour. */
    lemma LogKeepsPlainText(i: int)
      requires 0 <= i < |screen| && screen[i].Plain? && Esc !in screen[i].text
      ensures LogLines()[i] == Plain(screen[i].text, NoColor)
    {
      StripWithoutEscape(screen[i].text);
    }

    /** The log copy of a line is a line of the same kind, uncoloured, whose
     *  texts are never longer than those shown; the sections of a result and
     *  the label of an item are logged unchanged. */
    lemma LogNeverLonger(i: int)
      requires 0 <= i < |screen|
      ensures var shown, logged := screen[i], LogLines()[i];
        && logged.color == NoColor
        && (shown.Plain? ==> logged.Plain? && |logged.text| <= |shown.text|)
        && (shown.ResultLine? ==> logged.ResultLine? && |logged.head| <= |shown.head| && logged.sections == shown.sections)
        && (shown.ItemLine? ==> logged.ItemLine? && |logged.prefix| <= |shown.prefix| && |logged.suffix| <= |shown.suffix| && logged.item == shown.item)
    {
      match screen[i]
      case Plain(t, _) => StripNeverLonger(t);
      case ResultLine(h, _, _) => StripNeverLonger(h);
      case ItemLine(p, _, x, _) => StripNeverLonger(p); StripNeverLonger(x);
    }

    /** `_flush_display_buffer`: shows the buffered title once. */
    method FlushDisplayBuffer()
      modifies this`screen, this`taskNameBuffer
      ensures screen == old(screen) + Pending(old(taskNameBuffer))
      ensures taskNameBuffer == Flushed(old(taskNameBuffer))
      ensures Pending(taskNameBuffer) == []
    {
      if taskNameBuffer.Some? && taskNameBuffer.value != "" {
        Display(Plain(taskNameBuffer.value, NoColor));
        taskNameBuffer := None;
      }
    }

    /** `v2_playbook_on_play_start`: only the first play ever shown gets a
     *  banner, since `_current_play` is never cleared. */
    method OnPlayStart(play: Play)
      modifies this`screen, this`currentPlay
      ensures currentPlay == Some(play)
      ensures screen == old(screen) + (if old(currentPlay).Some? then [] else PlayBanner(play))
    {
      if currentPlay.Some? {
        currentPlay := Some(play);
        return;
      }
      currentPlay := Some(play);
      var name := Strip(play.name);
      Display(Plain(PlayTitle(name), NoColor));
      ghost var banner := screen;
      if play.hosts != [] {
        DisplayHosts(play.hosts);
      }
      calc {
        screen;
        banner + HostBlock(play.hosts);
        old(screen) + [Plain(PlayTitle(name), NoColor)] + HostBlock(play.hosts);
        { AppendAssoc(old(screen), [Plain(PlayTitle(name), NoColor)], HostBlock(play.hosts)); }
        old(screen) + PlayBanner(play);
      }
    }

    /** The host list of the play banner, one `display` per line. */
    method DisplayHosts(hosts: seq<string>)
      requires hosts != []
      modifies this`screen
      ensures screen == old(screen) + HostBlock(hosts)
    {
      Display(Plain("Hosts:", NoColor));
      var start := screen;
      var i := 0;
      while i < |hosts|
        invariant 0 <= i <= |hosts|
        invariant screen == start + HostLines(hosts[..i])
      {
        Display(Plain("  - " + hosts[i], NoColor));
        HostLinesSnoc(hosts, i);
        i := i + 1;
      }
      assert hosts[..i] == hosts;
      Display(Plain(Repeat('-', 80), NoColor));
      AppendAssoc(old(screen), [Plain("Hosts:", NoColor)], HostLines(hosts));
      AppendAssoc(old(screen), [Plain("Hosts:", NoColor)] + HostLines(hosts), [Plain(Repeat('-', 80), NoColor)]);
    }

    /** `v2_runner_on_start`. */
    method OnRunnerStart(host: string)
      modifies this`currentHost
      ensures currentHost == Some(host)
    {
      currentHost := Some(host);
    }

    /** `_get_task_display_name`. */
    method GetTaskDisplayName(task: Task)
      modifies this`taskDisplayName
      ensures taskDisplayName == TaskDisplayName(task.name)
    {
      taskDisplayName := None;
      var last := LastPart(Strip(task.name), " : ");
      if StartsWith(last, "include") {
        return;
      }
      taskDisplayName := Some(last);
    }

    /** `_display_task_decision_score`: scans the hosts until the condition is
     *  false for one; `None` when `int()` of a debug task's verbosity raises. */
    method DecisionScore(task: Task) returns (score: Option<real>)
      ensures score == ScoreOf(task, verbosity)
    {
      score := Some(0.5);
      if task.hasWhen && task.hasVariableManager {
        var exception := false;
        var broke := false;
        var i := 0;
        while i < |task.hostOutcomes|
          invariant 0 <= i <= |task.hostOutcomes|
          invariant Fails !in task.hostOutcomes[..i]
          invariant exception <==> Raises in task.hostOutcomes[..i]
          invariant !broke && score == Some(0.5)
        {
          var outcome := task.hostOutcomes[i];
          if outcome.Fails? {
            score := Some(0.0);
            broke := true;
            break;
          }
          if outcome.Raises? {
            exception := true;
          }
          assert task.hostOutcomes[..i + 1] == task.hostOutcomes[..i] + [outcome];
          i := i + 1;
        }
        if broke {
          assert task.hostOutcomes[i] in task.hostOutcomes;
        } else {
          assert task.hostOutcomes[..i] == task.hostOutcomes;
          if !exception {
            score := Some(1.0);
          }
        }
      } else if task.action == "debug" && task.args != [] && Has(task.args, "verbosity") {
        var level := PyIntOf(GetOrNone(task.args, "verbosity"));
        if level.None? {
          return None;
        }
        score := Some(if IsRunVerbose(verbosity, None, level.value) then 1.0 else 0.0);
      }
    }

    /** `_display_task_name`: buffer the title, then show it at once, drop it
     *  or keep it buffered for the first result, by the decision score. */
    method DisplayTaskName(task: Task, isHandler: bool) returns (raised: bool)
      modifies this`itemProcessed, this`taskDisplayName, this`taskNameBuffer, this`screen
      ensures !itemProcessed && taskDisplayName == TaskDisplayName(task.name)
      ensures var effect := TitleDecision(TaskDisplayName(task.name), isHandler, ScoreOf(task, verbosity), displaySkippedHosts, old(taskNameBuffer));
        screen == old(screen) + effect.shown && taskNameBuffer == effect.buffer && raised == effect.raised
    {
      raised := false;
      itemProcessed := false;
      GetTaskDisplayName(task);
      if taskDisplayName.Some? && taskDisplayName.value != "" {
        raised := BufferTitle(taskDisplayName.value, task, isHandler);
      }
    }

    /** Buffer the title of `task`, then show, drop or keep it by its score. */
    method BufferTitle(displayName: string, task: Task, isHandler: bool) returns (raised: bool)
      requires displayName != ""
      modifies this`taskNameBuffer, this`screen
      ensures var effect := TitleDecision(Some(displayName), isHandler, ScoreOf(task, verbosity), displaySkippedHosts, old(taskNameBuffer));
        screen == old(screen) + effect.shown && taskNameBuffer == effect.buffer && raised == effect.raised
    {
      raised := false;
      taskNameBuffer := Some(BufferedTitle(displayName, isHandler));
      var score := DecisionScore(task);
      if score.None? {
        raised := true;
        return;
      }
      ApplyScore(score.value);
    }

    /** The end of `_display_task_name`, once the title is buffered and scored. */
    method ApplyScore(score: real)
      requires taskNameBuffer.Some? && taskNameBuffer.value != ""
      modifies this`screen, this`taskNameBuffer
      ensures var effect := ScoredTitle(old(taskNameBuffer).value, score, displaySkippedHosts);
        screen == old(screen) + effect.shown && taskNameBuffer == effect.buffer && !effect.raised
    {
      if score >= 1.0 || displaySkippedHosts {
        FlushDisplayBuffer();
      } else if score < 0.1 {
        taskNameBuffer := None;
      }
    }

    /** `v2_playbook_on_task_start`. */
    method OnTaskStart(task: Task) returns (raised: bool)
      modifies this`itemProcessed, this`taskDisplayName, this`taskNameBuffer, this`screen
      ensures !itemProcessed && taskDisplayName == TaskDisplayName(task.name)
      ensures var effect := TitleDecision(TaskDisplayName(task.name), false, ScoreOf(task, verbosity), displaySkippedHosts, old(taskNameBuffer));
        screen == old(screen) + effect.shown && taskNameBuffer == effect.buffer && raised == effect.raised
    {
      raised := DisplayTaskName(task, false);
    }

    /** `v2_playbook_on_handler_task_start`. */
    method OnHandlerTaskStart(task: Task) returns (raised: bool)
      modifies this`itemProcessed, this`taskDisplayName, this`taskNameBuffer, this`screen
      ensures !itemProcessed && taskDisplayName == TaskDisplayName(task.name)
      ensures var effect := TitleDecision(TaskDisplayName(task.name), true, ScoreOf(task, verbosity), displaySkippedHosts, old(taskNameBuffer));
        screen == old(screen) + effect.shown && taskNameBuffer == effect.buffer && raised == effect.raised
    {
      raised := DisplayTaskName(task, true);
    }

    /** `_handle_exception(result._result)`. */
    method HandleException(result: TaskResult, useStderr: bool)
      requires UniqueKeys(result.fields) && ExceptionIsText(result.fields)
      modifies result`fields
      ensures result.fields == HandledResult(old(result.fields), useStderr, IsRunVerbose(verbosity, None, 3))
    {
      result.fields := HandledResult(result.fields, useStderr, IsRunVerbose(verbosity, None, 3));
    }

    /** `_preprocess_result`: remember the delegated variables, show the
     *  buffered title and rewrite an exception. */
    method PreprocessResult(result: TaskResult)
      requires UniqueKeys(result.fields) && ExceptionIsText(result.fields)
      modifies this`delegatedVars, this`screen, this`taskNameBuffer, result`fields
      ensures delegatedVars == GetOrNone(old(result.fields), "_ansible_delegated_vars")
      ensures screen == old(screen) + Pending(old(taskNameBuffer))
      ensures taskNameBuffer == Flushed(old(taskNameBuffer))
      ensures result.fields == HandledResult(old(result.fields), false, IsRunVerbose(verbosity, None, 3))
    {
      delegatedVars := GetOrNone(result.fields, "_ansible_delegated_vars");
      FlushDisplayBuffer();
      HandleException(result, false);
    }

    /** `v2_runner_on_ok`: nothing once an item of this task was shown;
     *  otherwise the title, then the result as "ok" or "changed". */
    method OnOk(result: TaskResult)
      requires UniqueKeys(result.fields) && ExceptionIsText(result.fields)
      modifies this`delegatedVars, this`screen, this`taskNameBuffer, result`fields
      ensures old(itemProcessed) ==>
        && screen == old(screen) && result.fields == old(result.fields)
        && taskNameBuffer == old(taskNameBuffer) && delegatedVars == old(delegatedVars)
      ensures !old(itemProcessed) ==>
        var fields := HandledResult(old(result.fields), false, IsRunVerbose(verbosity, None, 3));
        var outcome := ChangedArtifacts(fields, "ok", OkColor);
        && result.fields == fields
        && delegatedVars == GetOrNone(old(result.fields), "_ansible_delegated_vars")
        && screen == old(screen) + Pending(old(taskNameBuffer)) +
             [ResultReport(result.hostName, delegatedVars, fields, verbosity, outcome.0, Symbol("success"), outcome.1)]
        && taskNameBuffer == Flushed(old(taskNameBuffer))
    {
      if itemProcessed {
        return;
      }
      PreprocessResult(result);
      var outcome := ChangedArtifacts(result.fields, "ok", OkColor);
      Display(ResultReport(result.hostName, delegatedVars, result.fields, verbosity, outcome.0, Symbol("success"), outcome.1));
    }

    /** `v2_runner_on_failed`: nothing once an item of this task was shown;
     *  otherwise the result as "failed", or "ignored" with `ignore_errors`. */
    method OnFailed(result: TaskResult, ignoreErrors: bool)
      requires UniqueKeys(result.fields) && ExceptionIsText(result.fields)
      modifies this`delegatedVars, this`screen, this`taskNameBuffer, result`fields
      ensures old(itemProcessed) ==>
        && screen == old(screen) && result.fields == old(result.fields)
        && taskNameBuffer == old(taskNameBuffer) && delegatedVars == old(delegatedVars)
      ensures !old(itemProcessed) ==>
        var fields := HandledResult(old(result.fields), false, IsRunVerbose(verbosity, None, 3));
        && result.fields == fields
        && delegatedVars == GetOrNone(old(result.fields), "_ansible_delegated_vars")
        && screen == old(screen) + Pending(old(taskNameBuffer)) +
             [ResultReport(result.hostName, delegatedVars, fields, verbosity,
                           if ignoreErrors then "ignored" else "failed", Symbol("failure"),
                           if ignoreErrors then SkipColor else ErrorColor)]
        && taskNameBuffer == Flushed(old(taskNameBuffer))
    {
      if itemProcessed {
        return;
      }
      PreprocessResult(result);
      var status := if ignoreErrors then "ignored" else "failed";
      var color := if ignoreErrors then SkipColor else ErrorColor;
      Display(ResultReport(result.hostName, delegatedVars, result.fields, verbosity, status, Symbol("failure"), color));
    }

    /** `v2_runner_on_skipped`: shown only with `display_skipped_hosts`. */
    method OnSkipped(result: TaskResult)
      requires UniqueKeys(result.fields) && ExceptionIsText(result.fields)
      modifies this`delegatedVars, this`screen, this`taskNameBuffer, result`fields
      ensures !displaySkippedHosts ==>
        && screen == old(screen) && result.fields == old(result.fields)
        && taskNameBuffer == old(taskNameBuffer) && delegatedVars == old(delegatedVars)
      ensures displaySkippedHosts ==>
        var fields := HandledResult(old(result.fields), false, IsRunVerbose(verbosity, None, 3));
        && result.fields == fields
        && delegatedVars == GetOrNone(old(result.fields), "_ansible_delegated_vars")
        && screen == old(screen) + Pending(old(taskNameBuffer)) +
             [ResultReport(result.hostName, delegatedVars, fields, verbosity, "skipped", Symbol("skip"), SkipColor)]
        && taskNameBuffer == Flushed(old(taskNameBuffer))
    {
      if displaySkippedHosts {
        PreprocessResult(result);
        Display(ResultReport(result.hostName, delegatedVars, result.fields, verbosity, "skipped", Symbol("skip"), SkipColor));
      }
    }

    /** `v2_runner_on_unreachable`: the title, then the result as
     *  "unreachable". The result is not preprocessed, so the delegated
     *  variables are those of the previous result. */
    method OnUnreachable(result: TaskResult)
      modifies this`screen, this`taskNameBuffer
      ensures screen == old(screen) + Pending(old(taskNameBuffer)) +
        [ResultReport(result.hostName, delegatedVars, result.fields, verbosity, "unreachable", Symbol("dead"), UnreachableColor)]
      ensures taskNameBuffer == Flushed(old(taskNameBuffer))
    {
      FlushDisplayBuffer();
      Display(ResultReport(result.hostName, delegatedVars, result.fields, verbosity, "unreachable", Symbol("dead"), UnreachableColor));
    }

    /** `_process_item_result_output`: the first item of a task is preceded by
     *  the "Items:" header, and marks its task so that its own ok or failed
     *  result is not shown. */
    method ProcessItemResultOutput(result: TaskResult, status: string, symbolChar: string, color: Color) returns (line: Line)
      modifies this`itemProcessed, this`screen
      ensures itemProcessed
      ensures screen == old(screen) + (if old(itemProcessed) then [] else [ItemsHeader()])
      ensures line == ItemReport(result.hostName, delegatedVars, result.itemLabel, status, symbolChar, color)
    {
      if !itemProcessed {
        itemProcessed := true;
        Display(ItemsHeader());
      }
      line := ItemReport(result.hostName, delegatedVars, result.itemLabel, status, symbolChar, color);
    }

    /** `v2_runner_item_on_ok`. */
    method OnItemOk(result: TaskResult)
      requires UniqueKeys(result.fields) && ExceptionIsText(result.fields)
      modifies this`delegatedVars, this`screen, this`taskNameBuffer, this`itemProcessed, result`fields
      ensures itemProcessed
      ensures var fields := HandledResult(old(result.fields), false, IsRunVerbose(verbosity, None, 3));
        var outcome := ChangedArtifacts(fields, "ok", OkColor);
        && result.fields == fields
        && delegatedVars == GetOrNone(old(result.fields), "_ansible_delegated_vars")
        && screen == old(screen) + Pending(old(taskNameBuffer)) + (if old(itemProcessed) then [] else [ItemsHeader()]) +
             [ItemReport(result.hostName, delegatedVars, result.itemLabel, outcome.0, Symbol("success"), outcome.1)]
        && taskNameBuffer == Flushed(old(taskNameBuffer))
    {
      PreprocessResult(result);
      var outcome := ChangedArtifacts(result.fields, "ok", OkColor);
      var line := ProcessItemResultOutput(result, outcome.0, Symbol("success"), outcome.1);
      Display(line);
    }

    /** `v2_runner_item_on_skipped`: shown only with `display_skipped_hosts`. */
    method OnItemSkipped(result: TaskResult)
      requires UniqueKeys(result.fields) && ExceptionIsText(result.fields)
      modifies this`delegatedVars, this`screen, this`taskNameBuffer, this`itemProcessed, result`fields
      ensures !displaySkippedHosts ==>
        && screen == old(screen) && result.fields == old(result.fields) && itemProcessed == old(itemProcessed)
        && taskNameBuffer == old(taskNameBuffer) && delegatedVars == old(delegatedVars)
      ensures displaySkippedHosts ==>
        var fields := HandledResult(old(result.fields), false, IsRunVerbose(verbosity, None, 3));
        && result.fields == fields && itemProcessed
        && delegatedVars == GetOrNone(old(result.fields), "_ansible_delegated_vars")
        && screen == old(screen) + Pending(old(taskNameBuffer)) + (if old(itemProcessed) then [] else [ItemsHeader()]) +
             [ItemReport(result.hostName, delegatedVars, result.itemLabel, "skipped", Symbol("skip"), SkipColor)]
        && taskNameBuffer == Flushed(old(taskNameBuffer))
    {
      if displaySkippedHosts {
        PreprocessResult(result);
        var line := ProcessItemResultOutput(result, "skipped", Symbol("skip"), SkipColor);
        Display(line);
      }
    }

    /** `v2_runner_item_on_failed`: the title, then the item as "failed"; the
     *  result is not preprocessed. */
    method OnItemFailed(result: TaskResult)
      modifies this`screen, this`taskNameBuffer, this`itemProcessed
      ensures itemProcessed
      ensures screen == old(screen) + Pending(old(taskNameBuffer)) + (if old(itemProcessed) then [] else [ItemsHeader()]) +
        [ItemReport(result.hostName, delegatedVars, result.itemLabel, "failed", Symbol("failure"), ErrorColor)]
      ensures taskNameBuffer == Flushed(old(taskNameBuffer))
    {
      FlushDisplayBuffer();
      var line := ProcessItemResultOutput(result, "failed", Symbol("failure"), ErrorColor);
      Display(line);
    }

    /** `v2_playbook_on_stats`: one row per processed host, sorted by name,
     *  accumulating the totals with `dictsum`. `stats` maps each processed host
     *  to its `stats.summarize(host)`. */
    method OnStats(stats: map<string, map<string, int>>)
      requires forall h :: h in stats ==> forall k :: k in SummaryKeys ==> k in stats[h]
      modifies this`screen
      ensures screen == old(screen) + StatsLines(stats)
    {
      DisplayStatsHead();
      var hosts := SortStrings(stats.Keys);
      var totals := DisplayHostRows(hosts, stats);
      TotalsHaveColumns(hosts, stats);
      DisplayTotals(totals);
      calc {
        screen;
        old(screen) + StatsHead() + HostRows(hosts, stats) + StatsFoot(totals);
        { AppendAssoc(old(screen), StatsHead(), HostRows(hosts, stats)); }
        old(screen) + (StatsHead() + HostRows(hosts, stats)) + StatsFoot(totals);
        { AppendAssoc(old(screen), StatsHead() + HostRows(hosts, stats), StatsFoot(totals)); }
        old(screen) + (StatsHead() + HostRows(hosts, stats) + StatsFoot(totals));
        { StatsLinesSplit(stats, hosts); }
        old(screen) + StatsLines(stats);
      }
    }

    /** The rule and the column titles that open the recap. */
    method DisplayStatsHead()
      modifies this`screen
      ensures screen == old(screen) + StatsHead()
    {
      var rule := Plain(Repeat('-', 80) + "\n\n", NoColor);
      var header := Plain(HeaderText(), NoColor);
      var double := Plain(SeparatorText('='), NoColor);
      Display(rule);
      Display(header);
      Display(double);
      AppendAssoc4(old(screen), [rule], [header], [double]);
      Triple(rule, header, double);
      assert StatsHead() == [rule, header, double];
    }

    /** The rule and the totals row that close the recap. */
    method DisplayTotals(totals: map<string, int>)
      requires forall k :: k in SummaryKeys ==> k in totals
      modifies this`screen
      ensures screen == old(screen) + StatsFoot(totals)
    {
      Display(Plain(SeparatorText('-'), NoColor));
      Display(Plain(CountsRowText("Totals", totals), NoColor));
    }

    /** The host rows of the recap in the given order, summing the columns on
     *  the way with `dictsum`; the sums are returned. */
    method DisplayHostRows(hosts: seq<string>, stats: map<string, map<string, int>>) returns (totals: map<string, int>)
      requires forall h :: h in hosts ==> h in stats
      requires forall h :: h in stats ==> forall k :: k in SummaryKeys ==> k in stats[h]
      modifies this`screen
      ensures totals == FoldTotals(InitialTotals, hosts, stats)
      ensures screen == old(screen) + HostRows(hosts, stats)
    {
      totals := InitialTotals;
      var i := 0;
      while i < |hosts|
        invariant 0 <= i <= |hosts|
        invariant totals == FoldTotals(InitialTotals, hosts[..i], stats)
        invariant screen == old(screen) + HostRows(hosts[..i], stats)
      {
        totals := DictSum(totals, stats[hosts[i]]);
        FoldTotalsPrefix(InitialTotals, hosts, i, stats);
        DisplayHostRow(old(screen), hosts, i, stats);
        i := i + 1;
      }
      assert hosts[..i] == hosts;
    }

    /** The row of the recap for `hosts[i]`, after the rows of the hosts before it. */
    method DisplayHostRow(ghost prefix: seq<Line>, hosts: seq<string>, i: int, stats: map<string, map<string, int>>)
      requires 0 <= i < |hosts|
      requires forall h :: h in hosts ==> h in stats
      requires forall h :: h in stats ==> forall k :: k in SummaryKeys ==> k in stats[h]
      requires screen == prefix + HostRows(hosts[..i], stats)
      modifies this`screen
      ensures screen == prefix + HostRows(hosts[..i + 1], stats)
    {
      Display(Plain(CountsRowText(hosts[i], stats[hosts[i]]), NoColor));
      HostRowsStep(prefix, hosts, i, stats);
    }

    /** `_get_tags`: the tags of every task (`taskTags`, one list per task of
     *  the playbook's tagged blocks), filtered by the requested tags and
     *  sorted; `None` when an empty request raises. */
    method GetTags(taskTags: seq<seq<string>>, requested: Option<set<string>>) returns (r: Option<seq<string>>)
      ensures r == match FilterTags(CollectedTags(taskTags), requested)
                   case None => None
                   case Some(ts) => Some(Sorted(ts))
    {
      var tags: set<string> := {};
      var i := 0;
      while i < |taskTags|
        invariant 0 <= i <= |taskTags|
        invariant tags == CollectedTags(taskTags[..i])
      {
        assert taskTags[..i + 1][..i] == taskTags[..i];
        tags := tags + set t | t in taskTags[i];
        i := i + 1;
      }
      assert taskTags[..i] == taskTags;
      var filtered := FilterTags(tags, requested);
      if filtered.None? {
        return None;
      }
      var sorted := SortStrings(filtered.value);
      r := Some(sorted);
    }

    /** `_display_tag_strip`: a blank line, then the tag line; nothing when
     *  collecting the tags raises. */
    method DisplayTagStrip(taskTags: seq<seq<string>>, requested: Option<set<string>>, width: int)
      modifies this`screen
      ensures match FilterTags(CollectedTags(taskTags), requested)
        case None => screen == old(screen)
        case Some(ts) => screen == old(screen) + [Plain("\n", NoColor), Plain(TagStrip(Sorted(ts), width), NoColor)]
    {
      var found := GetTags(taskTags, requested);
      if found.None? {
        return;
      }
      var tags := found.value;
      var line := TagLine(tags, width);
      Display(Plain("\n", NoColor));
      Display(Plain(line, NoColor));
    }

    /** The loop of `_display_tag_strip` that lays the badges out. */
    method TagLine(tags: seq<string>, width: int) returns (tagStrings: string)
      ensures tagStrings == TagStrip(tags, width)
    {
      tagStrings := "";
      var totalLen := 0;
      var firstItem := true;
      var i := 0;
      while i < |tags|
        invariant 0 <= i <= |tags|
        invariant TagStrip(tags, width) == tagStrings + Render(tags[i..], Layout(tags[i..], width, totalLen, firstItem))
      {
        var tag := tags[i];
        assert tags[i..][0] == tag && tags[i..][1..] == tags[i + 1..];
        ghost var prev := tagStrings;
        ghost var total0 := totalLen;
        ghost var first0 := firstItem;
        ghost var lead: Lead;
        if !firstItem {
          if totalLen + |tag| + 5 > width {
            lead := Wrap;
            tagStrings := tagStrings + "\n\n  " + Badge(tag);
            totalLen := |tag| + 6;
            firstItem := true;
          } else {
            lead := Space;
            tagStrings := tagStrings + " " + Badge(tag);
            totalLen := totalLen + |tag| + 5;
          }
        } else {
          lead := First;
          firstItem := false;
          tagStrings := tagStrings + "  " + Badge(tag);
          totalLen := |tag| + 6;
        }
        RenderStep(tags[i..], width, total0, first0, lead, totalLen, firstItem);
        AppendAssoc4(prev, LeadText(lead), Badge(tag), Render(tags[i + 1..], Layout(tags[i + 1..], width, totalLen, firstItem)));
        i := i + 1;
      }
      assert tags[i..] == [];
    }
  }
}
