/**
 * Column layout for the end-of-run summary table: `stringtruncate`, which fits
 * one cell to a column, and `dictsum`, which accumulates the per-host counters
 * into the "Totals" row.
 */
module Columns {
  import opened Wrappers
  import opened PyStr

  /** A cell of the table: the source passes either a text or an integer. */
  datatype Cell = Text(s: string) | Number(n: int)

  /** Which of `str.ljust` / `str.rjust` justifies the cell. */
  datatype Justify = LeftJust | RightJust

  const Placeholder: string := "[...]"

  /** `not value`. */
  predicate Falsy(v: Cell) {
    v == Text("") || v == Number(0)
  }

  /** The cell as text; numbers in plain decimal. */
  function CellText(v: Cell): string {
    match v
    case Text(s) => s
    case Number(n) => IntToString(n)
  }

  /** The justification used when none is given: right for integers, left otherwise. */
  function DefaultJustify(v: Cell, justfn: Option<Justify>): Justify {
    if justfn.Some? then justfn.value else if v.Number? then RightJust else LeftJust
  }

  /** Python's `s[:i]`, where a negative `i` counts from the end. */
  function SliceTo(s: string, i: int): (r: string)
    ensures |r| <= |s| && r == s[..|r|]
    ensures 0 <= i <= |s| ==> |r| == i
  {
    if i >= 0 then (if i <= |s| then s[..i] else s)
    else if |s| + i >= 0 then s[..|s| + i] else ""
  }

  /** Python's `s[i:]`, where a negative `i` counts from the end. */
  function SliceFrom(s: string, i: int): (r: string)
    ensures |r| <= |s| && r == s[|s| - |r|..]
    ensures 0 <= i <= |s| ==> |r| == |s| - i
  {
    if i >= 0 then (if i <= |s| then s[i..] else "")
    else if |s| + i >= 0 then s[|s| + i..] else s
  }

  /** `stringtruncate(value, width=width, justfn=justfn, fillchar=fill,
   *  truncate_placeholder=placeholder)` with colouring left as the identity.
   *  Note that the justification pads with spaces, not with `fill`. */
  function StringTruncate(value: Cell, width: int, justfn: Option<Justify>, fill: char, placeholder: string): (r: string)
    ensures !Falsy(value) && |CellText(value)| <= width ==> |r| == width
    ensures !Falsy(value) && DefaultJustify(value, justfn) == LeftJust && 0 < width && |placeholder| <= width ==> |r| == width
  {
    if Falsy(value) then Repeat(fill, width)
    else
      var just := DefaultJustify(value, justfn);
      var text := CellText(value);
      var truncatedWidth := width - |placeholder|;
      if |text| <= width || width == 0 then
        (if just == LeftJust then LJust(text, width) else RJust(text, width))
      else if just == LeftJust then SliceTo(text, truncatedWidth) + placeholder
      else placeholder + SliceFrom(text, truncatedWidth)
  }

  /** `stringtruncate(value, color, width)` as the summary table calls it. */
  function Truncate(value: Cell, width: int): string {
    StringTruncate(value, width, None, ' ', Placeholder)
  }

  /** A falsy value (`""` or `0`) becomes a run of `fill` as wide as the column. */
  lemma TruncateFalsy(value: Cell, width: int, justfn: Option<Justify>, fill: char, placeholder: string)
    requires Falsy(value)
    ensures var r := StringTruncate(value, width, justfn, fill, placeholder);
      |r| == (if width > 0 then width else 0) && forall k :: 0 <= k < |r| ==> r[k] == fill
  {
  }

  /** When the text fits (or the width is 0) it is only justified: it keeps all its
   *  characters, on the left for strings and on the right for integers, and
   *  spaces fill the column. */
  lemma TruncateFits(value: Cell, width: int, justfn: Option<Justify>, fill: char, placeholder: string)
    requires !Falsy(value)
    requires |CellText(value)| <= width || width == 0
    ensures var r := StringTruncate(value, width, justfn, fill, placeholder);
      var t := CellText(value);
      && |r| == (if |t| < width then width else |t|)
      && (DefaultJustify(value, justfn) == LeftJust ==> r[..|t|] == t && forall k :: |t| <= k < |r| ==> r[k] == ' ')
      && (DefaultJustify(value, justfn) == RightJust ==> r[|r| - |t|..] == t && forall k :: 0 <= k < |r| - |t| ==> r[k] == ' ')
  {
  }

  /** Left-justified text longer than a column that can hold the placeholder keeps
   *  its first `width - |placeholder|` characters and ends with the placeholder:
   *  exactly `width` characters. */
  lemma TruncateLeft(value: Cell, width: int, justfn: Option<Justify>, fill: char, placeholder: string)
    requires !Falsy(value) && DefaultJustify(value, justfn) == LeftJust
    requires 0 < width < |CellText(value)| && |placeholder| <= width
    ensures var r := StringTruncate(value, width, justfn, fill, placeholder);
      r == CellText(value)[..width - |placeholder|] + placeholder && |r| == width
  {
  }

  /** Right-justified text longer than the column starts with the placeholder and
   *  then drops only the first `width - |placeholder|` characters, so the cell is
   *  `|text| - width + 2 * |placeholder|` wide rather than `width`. */
  lemma TruncateRight(value: Cell, width: int, justfn: Option<Justify>, fill: char, placeholder: string)
    requires !Falsy(value) && DefaultJustify(value, justfn) == RightJust
    requires 0 < width < |CellText(value)| && |placeholder| <= width
    ensures var r := StringTruncate(value, width, justfn, fill, placeholder);
      var t := CellText(value);
      r == placeholder + t[width - |placeholder|..] && |r| == |t| - width + 2 * |placeholder|
  {
  }

  /** A concrete case of the right-justified width: an eight-digit count in a
   *  seven-wide column comes out eleven wide. */
  lemma TruncateRightExample()
    ensures Truncate(Number(12345678), 7) == "[...]345678"
  {
    EightDigits();
    TruncateRight(Number(12345678), 7, None, ' ', Placeholder);
    assert "12345678"[2..] == "345678";
  }

  lemma EightDigits()
    ensures IntToString(12345678) == "12345678"
  {
    assert NatToString(1) == "1";
    assert NatToString(12) == "12";
    assert NatToString(123) == "123";
    assert NatToString(1234) == "1234";
    assert NatToString(12345) == "12345";
    assert NatToString(123456) == "123456";
    assert NatToString(1234567) == "1234567";
    assert NatToString(12345678) == "12345678";
  }

  /** The value of `k` in a counter dictionary, 0 when absent. */
  function Count(m: map<string, int>, k: string): int {
    if k in m then m[k] else 0
  }

  /** What `dictsum(totals, values)` leaves in `totals`. */
  function Merged(totals: map<string, int>, values: map<string, int>): (r: map<string, int>)
    ensures r.Keys == totals.Keys + values.Keys
    ensures forall k :: k in r ==> r[k] == Count(totals, k) + Count(values, k)
  {
    map k | k in totals.Keys + values.Keys :: Count(totals, k) + Count(values, k)
  }

  /** `dictsum(totals, values)`: every key of `values` is added to its total, a
   *  new key starting from its value; the other totals are unchanged and no key
   *  is removed. Returns the updated dictionary. */
  method DictSum(totals: map<string, int>, values: map<string, int>) returns (updated: map<string, int>)
    ensures updated.Keys == totals.Keys + values.Keys
    ensures forall k :: k in values ==> updated[k] == (if k in totals then totals[k] + values[k] else values[k])
    ensures forall k :: k in totals && k !in values ==> updated[k] == totals[k]
    ensures updated == Merged(totals, values)
  {
    updated := totals;
    var rest := values.Keys;
    while rest != {}
      invariant rest <= values.Keys
      invariant updated.Keys == totals.Keys + (values.Keys - rest)
      invariant forall k :: k in values && k !in rest ==> updated[k] == (if k in totals then totals[k] + values[k] else values[k])
      invariant forall k :: k in totals && (k !in values || k in rest) ==> updated[k] == totals[k]
      decreases rest
    {
      var key :| key in rest;
      if key !in updated {
        updated := updated[key := values[key]];
      } else {
        updated := updated[key := updated[key] + values[key]];
      }
      rest := rest - {key};
    }
  }

  /** The docstring's example: three calls starting from `{}`. */
  lemma MergedExample()
    ensures var d1 := map["key1" := 10, "key2" := 20, "key3" := 30];
      var d2 := map["key1" := 5, "key2" := 10, "key3" := 15];
      var d3 := map["key1" := 1, "key2" := 2, "key3" := 3];
      Merged(Merged(Merged(map[], d1), d2), d3) == map["key1" := 16, "key2" := 32, "key3" := 48]
  {
    var d1 := map["key1" := 10, "key2" := 20, "key3" := 30];
    var d2 := map["key1" := 5, "key2" := 10, "key3" := 15];
    var d3 := map["key1" := 1, "key2" := 2, "key3" := 3];
    var keys := {"key1", "key2", "key3"};
    assert d1.Keys == keys && d2.Keys == keys && d3.Keys == keys;
    var t1 := Merged(map[], d1);
    assert t1.Keys == keys && t1["key1"] == 10 && t1["key2"] == 20 && t1["key3"] == 30;
    var t2 := Merged(t1, d2);
    assert t2.Keys == keys && t2["key1"] == 15 && t2["key2"] == 30 && t2["key3"] == 45;
    var t3 := Merged(t2, d3);
    var want := map["key1" := 16, "key2" := 32, "key3" := 48];
    assert t3.Keys == want.Keys;
    assert t3["key1"] == 16 && t3["key2"] == 32 && t3["key3"] == 48;
  }

  /** The sum of counter `k` over `hosts`. */
  function PerKeySum(hosts: seq<string>, summaries: map<string, map<string, int>>, k: string): int
    requires forall h :: h in hosts ==> h in summaries
    decreases |hosts|
  {
    if hosts == [] then 0 else Count(summaries[hosts[0]], k) + PerKeySum(hosts[1..], summaries, k)
  }

  /** `dictsum` applied to `totals` with the summary of each host in turn. */
  function FoldTotals(totals: map<string, int>, hosts: seq<string>, summaries: map<string, map<string, int>>): map<string, int>
    requires forall h :: h in hosts ==> h in summaries
    decreases |hosts|
  {
    if hosts == [] then totals else FoldTotals(Merged(totals, summaries[hosts[0]]), hosts[1..], summaries)
  }

  /** Adding one more host's summary at the end is one more `dictsum`. */
  lemma {:induction false} FoldTotalsSnoc(totals: map<string, int>, hosts: seq<string>, h: string, summaries: map<string, map<string, int>>)
    requires forall x :: x in hosts ==> x in summaries
    requires h in summaries
    ensures FoldTotals(totals, hosts + [h], summaries) == Merged(FoldTotals(totals, hosts, summaries), summaries[h])
    decreases |hosts|
  {
    if hosts == [] {
      assert hosts + [h] == [h];
    } else {
      assert (hosts + [h])[0] == hosts[0] && (hosts + [h])[1..] == hosts[1..] + [h];
      FoldTotalsSnoc(Merged(totals, summaries[hosts[0]]), hosts[1..], h, summaries);
    }
  }

  /** The same step for a prefix of the hosts. */
  lemma FoldTotalsPrefix(totals: map<string, int>, hosts: seq<string>, i: int, summaries: map<string, map<string, int>>)
    requires 0 <= i < |hosts|
    requires forall x :: x in hosts ==> x in summaries
    ensures FoldTotals(totals, hosts[..i + 1], summaries) == Merged(FoldTotals(totals, hosts[..i], summaries), summaries[hosts[i]])
  {
    assert hosts[..i + 1] == hosts[..i] + [hosts[i]];
    FoldTotalsSnoc(totals, hosts[..i], hosts[i], summaries);
  }

  /** Each accumulated total is its starting value plus the per-key sum of the
   *  hosts' counters; a total exists exactly when it existed at the start or
   *  some host reported that counter. */
  lemma {:induction false} FoldTotalsIsSum(totals: map<string, int>, hosts: seq<string>, summaries: map<string, map<string, int>>, k: string)
    requires forall h :: h in hosts ==> h in summaries
    ensures Count(FoldTotals(totals, hosts, summaries), k) == Count(totals, k) + PerKeySum(hosts, summaries, k)
    ensures k in FoldTotals(totals, hosts, summaries) <==> k in totals || exists h :: h in hosts && k in summaries[h]
    decreases |hosts|
  {
    if hosts != [] {
      var next := Merged(totals, summaries[hosts[0]]);
      FoldTotalsIsSum(next, hosts[1..], summaries, k);
      if k in next && k !in totals {
        assert hosts[0] in hosts && k in summaries[hosts[0]];
      }
      if exists h :: h in hosts && k in summaries[h] {
        var h :| h in hosts && k in summaries[h];
        if h != hosts[0] { assert h in hosts[1..]; }
      }
    }
  }

  /** The counters the summary table shows, in column order. */
  const SummaryKeys: seq<string> := ["ok", "changed", "unreachable", "failures", "rescued", "ignored"]

  /** `totals` before the first host is added: every shown counter at 0. */
  const InitialTotals: map<string, int> := map["ok" := 0, "changed" := 0, "unreachable" := 0, "failures" := 0, "rescued" := 0, "ignored" := 0]

  /** The "Totals" row shows, for every column, the sum of that column over all hosts. */
  lemma TotalsAreColumnSums(hosts: seq<string>, summaries: map<string, map<string, int>>, k: string)
    requires forall h :: h in hosts ==> h in summaries
    requires k in SummaryKeys
    ensures k in FoldTotals(InitialTotals, hosts, summaries)
    ensures FoldTotals(InitialTotals, hosts, summaries)[k] == PerKeySum(hosts, summaries, k)
  {
    FoldTotalsIsSum(InitialTotals, hosts, summaries, k);
  }

  /** `" {0} {1} {2} {3} {4} {5} {6}".format(...)` over the cells of a row: a
   *  leading space, then the cells with one space between each two. */
  function RowText(cells: seq<string>): (r: string)
    ensures |r| >= 1 && r[0] == ' '
    ensures |cells| >= 1 ==> |r| == TotalLength(cells) + |cells|
  {
    JoinLength(cells, " ");
    " " + Join(cells, " ")
  }

  /** A row whose first cell is 30 wide and whose six others are 7 wide is 79 wide. */
  lemma RowWidth(cells: seq<string>)
    requires |cells| == 7 && |cells[0]| == 30
    requires forall k :: 1 <= k < 7 ==> |cells[k]| == 7
    ensures |RowText(cells)| == 79
  {
    assert forall k :: 0 <= k < 6 ==> cells[1..][k] == cells[k + 1];
    TotalLengthUniform(cells[1..], 7);
  }

  /** A cell whose text fits its column fills the column exactly. */
  lemma CellWidth(value: Cell, width: int)
    requires 0 < width && |CellText(value)| <= width
    ensures |Truncate(value, width)| == width
  {
    if Falsy(value) {
      TruncateFalsy(value, width, None, ' ', Placeholder);
    }
  }

  /** `_display_summary_table_separator(c)`: a 79-column rule of `c` with a blank
   *  at the left edge and between the columns. */
  function SeparatorText(c: char): (r: string)
    ensures |r| == 79
    ensures forall k :: 0 <= k < |r| ==> r[k] == ' ' || r[k] == c
  {
    var cells := [Repeat(c, 30), Repeat(c, 7), Repeat(c, 7), Repeat(c, 7), Repeat(c, 7), Repeat(c, 7), Repeat(c, 7)];
    RowWidth(cells);
    JoinChars(cells, " ", {' ', c});
    RowText(cells)
  }

  /** The header row of the summary table, as wide as the separator. */
  function HeaderText(): (r: string)
    ensures |r| == 79
  {
    var cells := [Truncate(Text("Hosts"), 30), Truncate(Text("Success"), 7), Truncate(Text("Changed"), 7),
                  Truncate(Text("Dark"), 7), Truncate(Text("Failed"), 7), Truncate(Text("Rescued"), 7),
                  Truncate(Text("Ignored"), 7)];
    RowWidth(cells);
    RowText(cells)
  }

  /** The six counter names, each a member of `SummaryKeys`. */
  lemma SummaryKeysListed()
    ensures "ok" in SummaryKeys && "changed" in SummaryKeys && "unreachable" in SummaryKeys
    ensures "failures" in SummaryKeys && "rescued" in SummaryKeys && "ignored" in SummaryKeys
  {
    assert SummaryKeys[0] == "ok" && SummaryKeys[1] == "changed" && SummaryKeys[2] == "unreachable";
    assert SummaryKeys[3] == "failures" && SummaryKeys[4] == "rescued" && SummaryKeys[5] == "ignored";
  }

  /** The cells of a row with a name and the six shown counters of `counts`. */
  function CountsCells(name: string, counts: map<string, int>): seq<string>
    requires forall k :: k in SummaryKeys ==> k in counts
  {
    SummaryKeysListed();
    [Truncate(Text(name), 30), CounterCell(counts, "ok"), CounterCell(counts, "changed"),
     CounterCell(counts, "unreachable"), CounterCell(counts, "failures"),
     CounterCell(counts, "rescued"), CounterCell(counts, "ignored")]
  }

  /** The name fits its 30 columns and every shown counter its 7. */
  predicate CountsFit(name: string, counts: map<string, int>)
    requires forall k :: k in SummaryKeys ==> k in counts
  {
    SummaryKeysListed();
    && |name| <= 30
    && |IntToString(counts["ok"])| <= 7 && |IntToString(counts["changed"])| <= 7
    && |IntToString(counts["unreachable"])| <= 7 && |IntToString(counts["failures"])| <= 7
    && |IntToString(counts["rescued"])| <= 7 && |IntToString(counts["ignored"])| <= 7
  }

  /** A row whose name and counters fit is exactly the 79 columns of the header. */
  lemma CountsRowWidth(name: string, counts: map<string, int>)
    requires forall k :: k in SummaryKeys ==> k in counts
    requires CountsFit(name, counts)
    ensures |RowText(CountsCells(name, counts))| == 79
  {
    SummaryKeysListed();
    RowOfWidths(Truncate(Text(name), 30),
                CounterCell(counts, "ok"), CounterCell(counts, "changed"), CounterCell(counts, "unreachable"),
                CounterCell(counts, "failures"), CounterCell(counts, "rescued"), CounterCell(counts, "ignored"));
    CellWidth(Text(name), 30);
  }

  /** The cell of counter `key`, exactly 7 wide when the counter fits. */
  function CounterCell(counts: map<string, int>, key: string): (r: string)
    requires key in counts
    ensures |IntToString(counts[key])| <= 7 ==> |r| == 7
  {
    if |IntToString(counts[key])| <= 7 then
      CellWidth(Number(counts[key]), 7);
      Truncate(Number(counts[key]), 7)
    else
      Truncate(Number(counts[key]), 7)
  }

  /** A row of one 30-wide and six 7-wide cells, cell by cell. */
  lemma RowOfWidths(a: string, b: string, c: string, d: string, e: string, f: string, g: string)
    requires |a| == 30 && |b| == 7 && |c| == 7 && |d| == 7 && |e| == 7 && |f| == 7 && |g| == 7
    ensures |RowText([a, b, c, d, e, f, g])| == 79
  {
    RowWidth([a, b, c, d, e, f, g]);
  }

  /** A row with a name and the six shown counters of `counts`; it lines up with
   *  the header whenever the name and every counter fit their columns. */
  function CountsRowText(name: string, counts: map<string, int>): (r: string)
    requires forall k :: k in SummaryKeys ==> k in counts
    ensures |r| >= 1 && r[0] == ' '
    ensures CountsFit(name, counts) ==> |r| == 79
  {
    if CountsFit(name, counts) then
      CountsRowWidth(name, counts);
      RowText(CountsCells(name, counts))
    else
      RowText(CountsCells(name, counts))
  }
}
