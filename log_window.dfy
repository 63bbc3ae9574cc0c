/** The log window's text side: the style each level is drawn in, the names of
    the log categories, the line each log item becomes, and the batcher that
    groups a batch of items into runs of one level and hands them to the editor. */
module LogWindow {
  import opened Text

  // ---------------------------------------------------------------------
  // Levels, styles and categories

  /** The log levels; Unset is the batcher's starting value, not a level an item is logged at. */
  datatype LogLevel = Unset | Debug | Info | Warning | Error

  /** Scintilla's STYLE_LASTPREDEFINED. */
  const StyleLastPredefined: int := 39

  /** LogLevelStyleMap.at(level): None where `at` throws, for Unset. */
  function StyleOf(level: LogLevel): (r: Option<int>)
    ensures r.Some? <==> level != Unset
    ensures r.Some? ==> StyleLastPredefined <= r.value <= StyleLastPredefined + 3
  {
    match level
    case Unset => None
    case Debug => Some(StyleLastPredefined + 0)
    case Info => Some(StyleLastPredefined + 1)
    case Warning => Some(StyleLastPredefined + 2)
    case Error => Some(StyleLastPredefined + 3)
  }

  /** The four levels are drawn in four different styles. */
  lemma StylesDistinct(a: LogLevel, b: LogLevel)
    requires a != Unset && b != Unset && a != b
    ensures StyleOf(a) != StyleOf(b)
  {
  }

  /** The log categories; Unlisted stands for any category the name table lacks. */
  datatype LogCategory =
    | General | SocketHook | AllIpcMessageLogger | AnimationLockLatencyHandler
    | EffectApplicationDelayLogger | IpcTypeFinder | HashTracker | Unlisted

  /** The what() of std::map::at when the key is missing. */
  const MissingKeyMessage: string := "invalid map<K, T> key"

  /** LogCategoryNames.at(category). */
  function CategoryName(c: LogCategory): (r: Option<string>)
    ensures r.Some? <==> c != Unlisted
    ensures r.Some? ==> |r.value| > 0 && '\t' !in r.value
  {
    match c
    case General => Some("General")
    case SocketHook => Some("SocketHook")
    case AllIpcMessageLogger => Some("AllIpcMessageLogger")
    case AnimationLockLatencyHandler => Some("AnimationLockLatencyHandler")
    case EffectApplicationDelayLogger => Some("EffectApplicationDelayLogger")
    case IpcTypeFinder => Some("IpcTypeFinder")
    case HashTracker => Some("HashTracker")
    case Unlisted => None
  }

  /** Different categories print different names. */
  lemma CategoryNamesDistinct(a: LogCategory, b: LogCategory)
    requires a != Unlisted && b != Unlisted && a != b
    ensures CategoryName(a) != CategoryName(b)
  {
  }

  // ---------------------------------------------------------------------
  // Formatting one item

  /** The local SYSTEMTIME of an item's timestamp. */
  datatype SystemTime = SystemTime(year: nat, month: nat, day: nat, hour: nat, minute: nat, second: nat, milliseconds: nat)

  datatype LogItem = LogItem(time: SystemTime, category: LogCategory, level: LogLevel, log: string)

  /** "{:04}-{:02}-{:02}". */
  function DateText(t: SystemTime): string
  {
    ZeroPad(t.year, 4) + "-" + ZeroPad(t.month, 2) + "-" + ZeroPad(t.day, 2)
  }

  /** "{:02}:{:02}:{:02}.{:03}". */
  function ClockText(t: SystemTime): string
  {
    ZeroPad(t.hour, 2) + ":" + ZeroPad(t.minute, 2) + ":" + ZeroPad(t.second, 2) + "." + ZeroPad(t.milliseconds, 3)
  }

  /** "{:04}-{:02}-{:02} {:02}:{:02}:{:02}.{:03}". */
  function Timestamp(t: SystemTime): string
  {
    DateText(t) + " " + ClockText(t)
  }

  /** The timestamp, a tab, the category name, a tab, the message and a newline;
      an unlisted category fails as `at` does. */
  function FormatLine(item: LogItem): (r: Result<string>)
    ensures r.Err? <==> item.category == Unlisted
    ensures r.Err? ==> r.message == MissingKeyMessage
    ensures r.Ok? ==> |r.value| > 0 && r.value[|r.value| - 1] == '\n'
  {
    var name := CategoryName(item.category);
    if name.None? then Err(MissingKeyMessage)
    else Ok(Timestamp(item.time) + "\t" + name.value + "\t" + item.log + "\n")
  }

  /** A SYSTEMTIME whose fields fit the widths. */
  predicate FitsWidths(t: SystemTime)
  {
    t.year < 10000 && t.month < 100 && t.day < 100 && t.hour < 100 &&
    t.minute < 100 && t.second < 100 && t.milliseconds < 1000
  }

  lemma PadWidth(n: nat, w: nat)
    requires 1 <= w && n < Pow10(w)
    ensures |ZeroPad(n, w)| == w
  {
  }

  /** Three fields that fit their widths sit at fixed columns between their separators. */
  lemma ThreeFields(x: string, c1: char, y: string, c2: char, z: string)
    ensures var s := x + [c1] + y + [c2] + z;
      && |s| == |x| + |y| + |z| + 2
      && s[..|x|] == x && s[|x|] == c1 && s[|x| + 1..|x| + 1 + |y|] == y
      && s[|x| + 1 + |y|] == c2 && s[|x| + 2 + |y|..] == z
  {
  }

  lemma DateFields(t: SystemTime)
    requires t.year < 10000 && t.month < 100 && t.day < 100
    ensures var s := DateText(t);
      && |s| == 10 && s[4] == '-' && s[7] == '-'
      && s[0..4] == ZeroPad(t.year, 4) && s[5..7] == ZeroPad(t.month, 2) && s[8..10] == ZeroPad(t.day, 2)
  {
    assert Pow10(2) == 100 && Pow10(4) == 10000;
    PadWidth(t.year, 4);
    PadWidth(t.month, 2);
    PadWidth(t.day, 2);
    ThreeFields(ZeroPad(t.year, 4), '-', ZeroPad(t.month, 2), '-', ZeroPad(t.day, 2));
  }

  lemma ClockFields(t: SystemTime)
    requires t.hour < 100 && t.minute < 100 && t.second < 100 && t.milliseconds < 1000
    ensures var s := ClockText(t);
      && |s| == 12 && s[2] == ':' && s[5] == ':' && s[8] == '.'
      && s[0..2] == ZeroPad(t.hour, 2) && s[3..5] == ZeroPad(t.minute, 2)
      && s[6..8] == ZeroPad(t.second, 2) && s[9..12] == ZeroPad(t.milliseconds, 3)
  {
    assert Pow10(2) == 100 && Pow10(3) == 1000;
    PadWidth(t.hour, 2);
    PadWidth(t.minute, 2);
    PadWidth(t.second, 2);
    PadWidth(t.milliseconds, 3);
    var hms := ZeroPad(t.hour, 2) + ":" + ZeroPad(t.minute, 2) + ":" + ZeroPad(t.second, 2);
    ThreeFields(ZeroPad(t.hour, 2), ':', ZeroPad(t.minute, 2), ':', ZeroPad(t.second, 2));
    assert ClockText(t) == hms + "." + ZeroPad(t.milliseconds, 3);
  }

  /** With fields that fit, the timestamp is 23 characters: the 10-character date,
      a space and the 12-character clock. */
  lemma TimestampFields(t: SystemTime)
    requires FitsWidths(t)
    ensures var s := Timestamp(t);
      && |s| == 23 && s[..10] == DateText(t) && s[10] == ' ' && s[11..] == ClockText(t)
  {
    DateFields(t);
    ClockFields(t);
    var d := DateText(t);
    var c := ClockText(t);
    assert Timestamp(t) == d + [' '] + c;
  }

  /** After the timestamp come the tab, the category name, the tab and the message. */
  lemma LineLayout(item: LogItem)
    requires FitsWidths(item.time) && item.category != Unlisted
    ensures var line := FormatLine(item).value;
      && line[..23] == Timestamp(item.time) && line[23] == '\t'
      && line[24..24 + |CategoryName(item.category).value|] == CategoryName(item.category).value
      && line[24 + |CategoryName(item.category).value|] == '\t'
      && line[25 + |CategoryName(item.category).value|..] == item.log + "\n"
  {
    TimestampFields(item.time);
    var name := CategoryName(item.category).value;
    ThreeFields(Timestamp(item.time), '\t', name, '\t', item.log + "\n");
    assert FormatLine(item).value == Timestamp(item.time) + ['\t'] + name + ['\t'] + (item.log + "\n");
  }

  // ---------------------------------------------------------------------
  // Runs of one level

  /** A formatted item: its level and its line. */
  datatype Entry = Entry(level: LogLevel, line: string)

  /** A maximal run of consecutive entries of one level. */
  datatype Run = Run(level: LogLevel, lines: seq<string>)

  /** What FlushLog receives: text and the level it is styled with. */
  datatype Flush = Flush(text: string, level: LogLevel)

  function Concat(ss: seq<string>): string
    decreases |ss|
  {
    if |ss| == 0 then "" else Concat(ss[..|ss| - 1]) + ss[|ss| - 1]
  }

  lemma {:induction false} ConcatAppend(a: seq<string>, b: seq<string>)
    ensures Concat(a + b) == Concat(a) + Concat(b)
    decreases |b|
  {
    if |b| == 0 {
      assert a + b == a;
    } else {
      var front, last := b[..|b| - 1], b[|b| - 1];
      assert (a + b)[..|a + b| - 1] == a + front;
      assert (a + b)[|a + b| - 1] == last;
      ConcatAppend(a, front);
      AppendAssoc(Concat(a), Concat(front), last);
    }
  }

  function Lines(es: seq<Entry>): (r: seq<string>)
    ensures |r| == |es|
    decreases |es|
  {
    if |es| == 0 then [] else Lines(es[..|es| - 1]) + [es[|es| - 1].line]
  }

  /** The batch cut into maximal runs of one level, in order. */
  function Runs(es: seq<Entry>): (r: seq<Run>)
    ensures |r| == 0 <==> |es| == 0
    ensures |r| <= |es|
    ensures forall j :: 0 <= j < |r| ==> |r[j].lines| > 0
    ensures |es| > 0 ==> r[|r| - 1].level == es[|es| - 1].level
    ensures |es| > 0 ==> r[|r| - 1].lines[|r[|r| - 1].lines| - 1] == es[|es| - 1].line
    decreases |es|
  {
    if |es| == 0 then []
    else
      var rs := Runs(es[..|es| - 1]);
      var e := es[|es| - 1];
      if |rs| > 0 && rs[|rs| - 1].level == e.level then
        rs[..|rs| - 1] + [Run(e.level, rs[|rs| - 1].lines + [e.line])]
      else rs + [Run(e.level, [e.line])]
  }

  /** Neighbouring runs have different levels: the runs are maximal. */
  lemma {:induction false} RunsMaximal(es: seq<Entry>, j: nat)
    requires 0 < j < |Runs(es)|
    ensures Runs(es)[j - 1].level != Runs(es)[j].level
    decreases |es|
  {
    var init := es[..|es| - 1];
    var rs := Runs(init);
    var e := es[|es| - 1];
    if j < |rs| - 1 || (j == |rs| - 1 && !(rs[|rs| - 1].level == e.level)) {
      RunsMaximal(init, j);
    } else if j == |rs| - 1 {
      RunsMaximal(init, j);
    }
  }

  /** All lines of the runs, run after run. */
  function RunLines(rs: seq<Run>): seq<string>
    decreases |rs|
  {
    if |rs| == 0 then [] else RunLines(rs[..|rs| - 1]) + rs[|rs| - 1].lines
  }

  /** Adding one entry either extends the last run or opens a new one. */
  lemma RunsSnoc(es: seq<Entry>, e: Entry)
    ensures var rs := Runs(es);
      Runs(es + [e]) ==
        if |rs| > 0 && rs[|rs| - 1].level == e.level
        then rs[..|rs| - 1] + [Run(e.level, rs[|rs| - 1].lines + [e.line])]
        else rs + [Run(e.level, [e.line])]
  {
    DropAppended(es, e);
  }

  lemma RunLinesSnoc(rs: seq<Run>, r: Run)
    ensures RunLines(rs + [r]) == RunLines(rs) + r.lines
  {
    DropAppended(rs, r);
  }

  /** Adding one entry adds its line after the lines of the runs. */
  lemma RunLinesStep(es: seq<Entry>, e: Entry)
    ensures RunLines(Runs(es + [e])) == RunLines(Runs(es)) + [e.line]
  {
    RunsSnoc(es, e);
    var rs := Runs(es);
    if |rs| > 0 && rs[|rs| - 1].level == e.level {
      var front := rs[..|rs| - 1];
      var last := rs[|rs| - 1];
      SplitLast(rs);
      RunLinesSnoc(front, last);
      RunLinesSnoc(front, Run(e.level, last.lines + [e.line]));
      AppendAssoc(RunLines(front), last.lines, [e.line]);
    } else {
      RunLinesSnoc(rs, Run(e.level, [e.line]));
    }
  }

  /** Cutting into runs loses and reorders no line. */
  lemma {:induction false} RunsKeepLines(es: seq<Entry>)
    ensures RunLines(Runs(es)) == Lines(es)
    decreases |es|
  {
    if |es| > 0 {
      var init := es[..|es| - 1];
      var e := es[|es| - 1];
      SplitLast(es);
      RunsKeepLines(init);
      RunLinesStep(init, e);
      assert Lines(es) == Lines(init) + [e.line];
    }
  }

  /** How many times the level changes between consecutive entries. */
  function LevelChanges(es: seq<Entry>): nat
    decreases |es|
  {
    if |es| < 2 then 0
    else LevelChanges(es[..|es| - 1]) + if es[|es| - 2].level != es[|es| - 1].level then 1 else 0
  }

  /** A non-empty batch has one run more than it has level changes. */
  lemma {:induction false} RunCount(es: seq<Entry>)
    requires |es| > 0
    ensures |Runs(es)| == LevelChanges(es) + 1
    decreases |es|
  {
    if |es| > 1 {
      var init := es[..|es| - 1];
      RunCount(init);
      assert init[|init| - 1] == es[|es| - 2];
    }
  }

  // ---------------------------------------------------------------------
  // The batcher as written: the stream is never emptied

  /** One flush per run, each carrying every line formatted so far in the batch. */
  function Cumulative(rs: seq<Run>): (r: seq<Flush>)
    ensures |r| == |rs|
    ensures forall j :: 0 <= j < |rs| ==> r[j].level == rs[j].level
    decreases |rs|
  {
    if |rs| == 0 then []
    else Cumulative(rs[..|rs| - 1]) + [Flush(Concat(RunLines(rs)), rs[|rs| - 1].level)]
  }

  /** The flushes already made before the last run is flushed. */
  function Pending(fs: seq<Flush>): seq<Flush>
  {
    if |fs| == 0 then [] else fs[..|fs| - 1]
  }

  /** Each flush as written repeats the whole of the previous flush before its own run. */
  lemma CumulativeRepeats(rs: seq<Run>, j: nat)
    requires 0 < j < |rs|
    ensures Cumulative(rs)[j].text == Cumulative(rs)[j - 1].text + Concat(rs[j].lines)
  {
    CumulativePrefix(rs, j + 1);
    CumulativePrefix(rs, j);
    var p := rs[..j + 1];
    assert p[..j] == rs[..j];
    ConcatAppend(RunLines(rs[..j]), rs[j].lines);
  }

  /** The flushes of a prefix of the runs are a prefix of the flushes. */
  lemma {:induction false} CumulativePrefix(rs: seq<Run>, k: nat)
    requires 0 < k <= |rs|
    ensures Cumulative(rs)[k - 1] == Flush(Concat(RunLines(rs[..k])), rs[k - 1].level)
    ensures Cumulative(rs[..k]) == Cumulative(rs)[..k]
    decreases |rs|
  {
    if k < |rs| {
      var init := rs[..|rs| - 1];
      assert init[..k] == rs[..k];
      CumulativePrefix(init, k);
    } else {
      assert rs[..k] == rs;
    }
  }

  /** The last flush of a batch carries all of its lines, at the level of its last entry. */
  lemma CumulativeLast(es: seq<Entry>)
    requires |es| > 0
    ensures Cumulative(Runs(es))[|Runs(es)| - 1] == Flush(Concat(Lines(es)), es[|es| - 1].level)
  {
    var rs := Runs(es);
    RunsKeepLines(es);
    CumulativePrefix(rs, |rs|);
    assert rs[..|rs|] == rs;
  }

  /** How the flushes made before the last run change when one entry is added. */
  lemma PendingStep(es: seq<Entry>, e: Entry)
    ensures |es| > 0 && es[|es| - 1].level != e.level ==>
      Pending(Cumulative(Runs(es + [e]))) == Cumulative(Runs(es))
    ensures |es| == 0 || es[|es| - 1].level == e.level ==>
      Pending(Cumulative(Runs(es + [e]))) == Pending(Cumulative(Runs(es)))
  {
    var all := es + [e];
    DropAppended(es, e);
    var rs := Runs(es);
    if |es| > 0 {
      var rs' := Runs(all);
      if es[|es| - 1].level != e.level {
        assert rs' == rs + [Run(e.level, [e.line])];
        assert rs'[..|rs'| - 1] == rs;
      } else {
        assert rs'[..|rs'| - 1] == rs[..|rs| - 1];
      }
    }
  }

  /** The concatenation of the lines ends with the last line, so it is empty only for an empty batch. */
  lemma ConcatNonEmpty(es: seq<Entry>)
    requires |es| > 0 && |es[|es| - 1].line| > 0
    ensures |Concat(Lines(es))| > 0
  {
    assert Lines(es)[..|es| - 1] == Lines(es[..|es| - 1]);
  }

  /** Everything the window receives from a sequence of flushes, in order. */
  function FlushedText(fs: seq<Flush>): string
    decreases |fs|
  {
    if |fs| == 0 then "" else FlushedText(fs[..|fs| - 1]) + fs[|fs| - 1].text
  }

  /** One flush per run carrying that run's lines only. */
  function PerRun(rs: seq<Run>): (r: seq<Flush>)
    ensures |r| == |rs|
    ensures forall i :: 0 <= i < |rs| ==> r[i] == Flush(Concat(rs[i].lines), rs[i].level)
    decreases |rs|
  {
    if |rs| == 0 then []
    else PerRun(rs[..|rs| - 1]) + [Flush(Concat(rs[|rs| - 1].lines), rs[|rs| - 1].level)]
  }

  /** One flush per run hands the window every line exactly once, in order. */
  lemma {:induction false} PerRunKeepsText(rs: seq<Run>)
    ensures FlushedText(PerRun(rs)) == Concat(RunLines(rs))
    decreases |rs|
  {
    if |rs| > 0 {
      var init := rs[..|rs| - 1];
      PerRunKeepsText(init);
      ConcatAppend(RunLines(init), rs[|rs| - 1].lines);
    }
  }

  /** The j-th flush as written carries what one flush per run would have
      handed over up to and including its j-th flush. */
  lemma CumulativeIsPerRunSoFar(rs: seq<Run>, j: nat)
    requires j < |rs|
    ensures Cumulative(rs)[j].text == FlushedText(PerRun(rs)[..j + 1])
  {
    CumulativePrefix(rs, j + 1);
    PerRunKeepsText(rs[..j + 1]);
    PerRunPrefix(rs, j + 1);
  }

  lemma {:induction false} PerRunPrefix(rs: seq<Run>, k: nat)
    requires k <= |rs|
    ensures PerRun(rs[..k]) == PerRun(rs)[..k]
    decreases |rs|
  {
    if k == |rs| {
      assert rs[..k] == rs;
    } else {
      var init := rs[..|rs| - 1];
      assert init[..k] == rs[..k];
      PerRunPrefix(init, k);
    }
  }

  /** Two lines at two levels: as written the second flush repeats the first line,
      while one flush per run hands each line over once. */
  lemma AsWrittenRepeatsEarlierRun(x: string, y: string, l1: LogLevel, l2: LogLevel)
    requires l1 != l2
    ensures var es := [Entry(l1, x), Entry(l2, y)];
      && Cumulative(Runs(es)) == [Flush(x, l1), Flush(x + y, l2)]
      && PerRun(Runs(es)) == [Flush(x, l1), Flush(y, l2)]
  {
    TwoLevels(x, y, l1, l2);
    CumulativeTwoRuns(Run(l1, [x]), Run(l2, [y]));
    ConcatTwo(x, y);
    assert [x] + [y] == [x, y];
    PerRunTwoRuns(x, y, l1, l2);
  }

  lemma ConcatTwo(x: string, y: string)
    ensures Concat([x]) == x && Concat([x, y]) == x + y
  {
    ConcatSnoc([], x);
    ConcatSnoc([x], y);
    assert [] + [x] == [x] && [x] + [y] == [x, y];
  }

  lemma CumulativeOneRun(r: Run)
    ensures RunLines([r]) == r.lines
    ensures Cumulative([r]) == [Flush(Concat(r.lines), r.level)]
  {
    CumulativeSnoc([], r);
    RunLinesSnoc([], r);
    assert [] + [r] == [r];
    assert RunLines([]) + r.lines == r.lines;
  }

  lemma CumulativeTwoRuns(r1: Run, r2: Run)
    ensures Cumulative([r1, r2])
      == [Flush(Concat(r1.lines), r1.level), Flush(Concat(r1.lines + r2.lines), r2.level)]
  {
    var rs := [r1, r2];
    assert rs[..1] == [r1];
    CumulativeOneRun(r1);
    RunLinesSnoc([r1], r2);
    assert [r1] + [r2] == rs;
  }

  lemma PerRunTwoRuns(x: string, y: string, l1: LogLevel, l2: LogLevel)
    ensures PerRun([Run(l1, [x]), Run(l2, [y])]) == [Flush(x, l1), Flush(y, l2)]
  {
    var r1, r2 := Run(l1, [x]), Run(l2, [y]);
    ConcatTwo(x, y);
    ConcatTwo(y, x);
    PerRunSnoc([], r1);
    assert [] + [r1] == [r1];
    assert PerRun([r1]) == [Flush(x, l1)];
    PerRunSnoc([r1], r2);
    assert [r1] + [r2] == [r1, r2];
  }

  lemma TwoLevels(x: string, y: string, l1: LogLevel, l2: LogLevel)
    requires l1 != l2
    ensures Runs([Entry(l1, x), Entry(l2, y)]) == [Run(l1, [x]), Run(l2, [y])]
  {
    var e1, e2 := Entry(l1, x), Entry(l2, y);
    RunsSnoc([], e1);
    RunsSnoc([e1], e2);
    assert [] + [e1] == [e1] && [e1] + [e2] == [e1, e2];
  }

  lemma CumulativeSnoc(rs: seq<Run>, r: Run)
    ensures Cumulative(rs + [r]) == Cumulative(rs) + [Flush(Concat(RunLines(rs) + r.lines), r.level)]
  {
    DropAppended(rs, r);
    RunLinesSnoc(rs, r);
  }



  // ---------------------------------------------------------------------
  // The batch loop over log items

  /** What the batcher needs from the line formatter, FormatLine being the one the
      window uses: it fails exactly on an unlisted category and otherwise gives a
      non-empty line. */
  ghost predicate LineFormatter(format: LogItem -> Result<string>)
  {
    forall item :: (format(item).Err? <==> item.category == Unlisted) && (format(item).Ok? ==> |format(item).value| > 0)
  }

  /** The window's formatter is such a formatter. */
  lemma FormatLineIsLineFormatter()
    ensures LineFormatter(FormatLine)
  {
    forall x: LogItem ensures (FormatLine(x).Err? <==> x.category == Unlisted) && (FormatLine(x).Ok? ==> |FormatLine(x).value| > 0) {
      var r := FormatLine(x);
    }
  }

  /** The index of the first item whose category has no name, or the batch length. */
  function FirstUnlisted(items: seq<LogItem>): (k: nat)
    ensures k <= |items|
    ensures forall i :: 0 <= i < k ==> items[i].category != Unlisted
    ensures k < |items| ==> items[k].category == Unlisted
    decreases |items|
  {
    if |items| == 0 then 0
    else if items[0].category == Unlisted then 0
    else 1 + FirstUnlisted(items[1..])
  }

  /** The text of a formatted line; the specifications below use it only on items
      that format. */
  function LineText(r: Result<string>): string
  {
    if r.Ok? then r.value else ""
  }

  /** The formatted entries of the items, one per item. */
  function Entries(items: seq<LogItem>, format: LogItem -> Result<string>): (r: seq<Entry>)
    ensures |r| == |items|
    ensures |items| > 0 ==> r[|r| - 1].level == items[|items| - 1].level
    decreases |items|
  {
    if |items| == 0 then []
    else
      var n := |items| - 1;
      Entries(items[..n], format) + [Entry(items[n].level, LineText(format(items[n])))]
  }

  lemma EntriesStep(items: seq<LogItem>, format: LogItem -> Result<string>, i: nat)
    requires LineFormatter(format) && i < FirstUnlisted(items)
    ensures Entries(items[..i + 1], format) == Entries(items[..i], format) + [Entry(items[i].level, format(items[i]).value)]
  {
    assert items[..i + 1][..i] == items[..i];
  }

  /** The level the batcher holds after the given entries: Unset before the first. */
  function LastLevel(es: seq<Entry>): LogLevel
  {
    if |es| == 0 then Unset else es[|es| - 1].level
  }

  /** Formatting one more entry appends its line to the text. */
  lemma LinesSnoc(es: seq<Entry>, e: Entry)
    ensures Concat(Lines(es + [e])) == Concat(Lines(es)) + e.line
  {
    DropAppended(es, e);
    ConcatAppend(Lines(es), [e.line]);
    var single: seq<string> := [e.line];
    assert single[..0] == [];
  }

  /** What formatting one more entry changes in the flushes as written: at a level
      change after the first entry, everything formatted so far is flushed once more. */
  lemma AsWrittenStep(es: seq<Entry>, e: Entry)
    ensures Pending(Cumulative(Runs(es + [e]))) ==
      if |es| > 0 && LastLevel(es) != e.level
      then Pending(Cumulative(Runs(es))) + [Flush(Concat(Lines(es)), LastLevel(es))]
      else Pending(Cumulative(Runs(es)))
  {
    if |es| > 0 {
      CumulativeLast(es);
    }
    PendingStep(es, e);
  }

  /** The flushes as written of a batch, its last run included. */
  lemma AsWrittenLast(es: seq<Entry>)
    ensures Cumulative(Runs(es)) ==
      if |es| == 0 then [] else Pending(Cumulative(Runs(es))) + [Flush(Concat(Lines(es)), LastLevel(es))]
  {
    if |es| > 0 {
      CumulativeLast(es);
    }
  }

  /** The text of the last run of a batch, empty for an empty batch. */
  function LastRunText(es: seq<Entry>): string
  {
    var rs := Runs(es);
    if |es| == 0 then "" else Concat(rs[|rs| - 1].lines)
  }

  /** The flushes one per run of a sequence of runs ending in a given run. */
  lemma PerRunSnoc(rs: seq<Run>, r: Run)
    ensures PerRun(rs + [r]) == PerRun(rs) + [Flush(Concat(r.lines), r.level)]
    ensures Pending(PerRun(rs + [r])) == PerRun(rs)
  {
    DropAppended(rs, r);
  }

  /** What formatting one more entry changes when the stream is emptied at each
      flush: at a level change after the first entry the run so far is flushed and
      the new run is just the new line; otherwise the line joins the current run. */
  lemma PerRunStep(es: seq<Entry>, e: Entry)
    ensures |es| > 0 && LastLevel(es) != e.level ==>
      && LastRunText(es + [e]) == e.line
      && Pending(PerRun(Runs(es + [e]))) == Pending(PerRun(Runs(es))) + [Flush(LastRunText(es), LastLevel(es))]
    ensures |es| == 0 || LastLevel(es) == e.level ==>
      && LastRunText(es + [e]) == LastRunText(es) + e.line
      && Pending(PerRun(Runs(es + [e]))) == Pending(PerRun(Runs(es)))
  {
    LastRunTextStep(es, e);
    PendingPerRunStep(es, e);
  }

  lemma LastRunTextStep(es: seq<Entry>, e: Entry)
    ensures |es| > 0 && LastLevel(es) != e.level ==> LastRunText(es + [e]) == e.line
    ensures |es| == 0 || LastLevel(es) == e.level ==> LastRunText(es + [e]) == LastRunText(es) + e.line
  {
    RunsSnoc(es, e);
    var rs := Runs(es);
    ConcatSnoc([], e.line);
    assert [] + [e.line] == [e.line];
    if |es| > 0 && LastLevel(es) == e.level {
      ConcatSnoc(rs[|rs| - 1].lines, e.line);
    }
  }

  lemma PendingPerRunStep(es: seq<Entry>, e: Entry)
    ensures |es| > 0 && LastLevel(es) != e.level ==>
      Pending(PerRun(Runs(es + [e]))) == Pending(PerRun(Runs(es))) + [Flush(LastRunText(es), LastLevel(es))]
    ensures |es| == 0 || LastLevel(es) == e.level ==>
      Pending(PerRun(Runs(es + [e]))) == Pending(PerRun(Runs(es)))
  {
    RunsSnoc(es, e);
    var rs := Runs(es);
    if |es| == 0 {
      PerRunSnoc(rs, Run(e.level, [e.line]));
    } else if LastLevel(es) != e.level {
      PerRunNewRun(rs, Run(e.level, [e.line]));
    } else {
      PerRunSameRun(rs, e.line);
    }
  }

  lemma ConcatSnoc(ss: seq<string>, s: string)
    ensures Concat(ss + [s]) == Concat(ss) + s
  {
    DropAppended(ss, s);
  }

  /** A new run flushes the previous last run. */
  lemma PerRunNewRun(rs: seq<Run>, r: Run)
    requires |rs| > 0
    ensures Pending(PerRun(rs + [r])) ==
      Pending(PerRun(rs)) + [Flush(Concat(rs[|rs| - 1].lines), rs[|rs| - 1].level)]
  {
    var front := rs[..|rs| - 1];
    var last := rs[|rs| - 1];
    SplitLast(rs);
    PerRunSnoc(front, last);
    PerRunSnoc(rs, r);
  }

  /** A line joining the last run flushes nothing. */
  lemma PerRunSameRun(rs: seq<Run>, line: string)
    requires |rs| > 0
    ensures var last := rs[|rs| - 1];
      Pending(PerRun(rs[..|rs| - 1] + [Run(last.level, last.lines + [line])])) == Pending(PerRun(rs))
  {
    var front := rs[..|rs| - 1];
    var last := rs[|rs| - 1];
    SplitLast(rs);
    PerRunSnoc(front, last);
    PerRunSnoc(front, Run(last.level, last.lines + [line]));
  }

  /** The flushes one per run of a batch, its last run included. */
  lemma PerRunLast(es: seq<Entry>)
    ensures PerRun(Runs(es)) ==
      if |es| == 0 then [] else Pending(PerRun(Runs(es))) + [Flush(LastRunText(es), LastLevel(es))]
  {
    if |es| > 0 {
      var rs := Runs(es);
      PerRunSnoc(rs[..|rs| - 1], rs[|rs| - 1]);
      SplitLast(rs);
    }
  }

  /** Every formatted line is non-empty. */
  ghost predicate NonEmptyLines(es: seq<Entry>)
  {
    forall j :: 0 <= j < |es| ==> |es[j].line| > 0
  }

  lemma {:induction false} EntriesNonEmpty(items: seq<LogItem>, format: LogItem -> Result<string>)
    requires LineFormatter(format)
    requires forall i :: 0 <= i < |items| ==> items[i].category != Unlisted
    ensures NonEmptyLines(Entries(items, format))
    decreases |items|
  {
    if |items| > 0 {
      EntriesNonEmpty(items[..|items| - 1], format);
    }
  }

  /** The batcher's state: the stream's text, the level it holds and the flushes made. */
  datatype Batch = Batch(text: string, level: LogLevel, flushes: seq<Flush>)

  /** The level check before an item is formatted: at a change of level, non-empty
      text is flushed at the old level; `clears` says whether the stream is emptied. */
  function AtLevel(b: Batch, level: LogLevel, clears: bool): Batch
  {
    if b.level == level then b
    else Batch(if clears then "" else b.text, level,
               if |b.text| > 0 then b.flushes + [Flush(b.text, b.level)] else b.flushes)
  }

  /** The final flush after the last item. */
  function Finished(b: Batch): seq<Flush>
  {
    if |b.text| > 0 then b.flushes + [Flush(b.text, b.level)] else b.flushes
  }

  /** The state after the given entries are fed one by one. */
  function Fed(es: seq<Entry>, clears: bool): Batch
    decreases |es|
  {
    if |es| == 0 then Batch("", Unset, [])
    else
      var n := |es| - 1;
      var b := AtLevel(Fed(es[..n], clears), es[n].level, clears);
      b.(text := b.text + es[n].line)
  }

  lemma FedStep(es: seq<Entry>, e: Entry, clears: bool)
    ensures var b := AtLevel(Fed(es, clears), e.level, clears);
      Fed(es + [e], clears) == b.(text := b.text + e.line)
  {
    DropAppended(es, e);
  }

  lemma FedAsWrittenSnoc(es: seq<Entry>, e: Entry)
    requires |es| > 0 ==> |Concat(Lines(es))| > 0
    requires Fed(es, false) == Batch(Concat(Lines(es)), LastLevel(es), Pending(Cumulative(Runs(es))))
    ensures Fed(es + [e], false) ==
      Batch(Concat(Lines(es + [e])), LastLevel(es + [e]), Pending(Cumulative(Runs(es + [e]))))
  {
    FedStep(es, e, false);
    LinesSnoc(es, e);
    AsWrittenStep(es, e);
    assert LastLevel(es + [e]) == e.level;
  }

  /** Fed as written, the stream holds every line so far and the flushes are those
      of all runs but the last, each carrying everything before the next run. */
  lemma {:induction false} FedAsWritten(es: seq<Entry>)
    requires NonEmptyLines(es)
    ensures Fed(es, false) == Batch(Concat(Lines(es)), LastLevel(es), Pending(Cumulative(Runs(es))))
    decreases |es|
  {
    if |es| > 0 {
      var init := es[..|es| - 1];
      var e := es[|es| - 1];
      SplitLast(es);
      FedAsWritten(init);
      if |init| > 0 {
        ConcatNonEmpty(init);
      }
      FedAsWrittenSnoc(init, e);
    }
  }

  /** The flushes as written once the level of the next item is checked. */
  lemma AsWrittenAtLevel(es: seq<Entry>, level: LogLevel)
    requires NonEmptyLines(es)
    ensures AtLevel(Fed(es, false), level, false).flushes ==
      if |es| > 0 && LastLevel(es) != level then Cumulative(Runs(es)) else Pending(Cumulative(Runs(es)))
    ensures Finished(Fed(es, false)) == Cumulative(Runs(es))
  {
    FedAsWritten(es);
    AsWrittenLast(es);
    if |es| > 0 {
      ConcatNonEmpty(es);
    }
  }

  lemma LastRunTextNonEmpty(es: seq<Entry>)
    requires |es| > 0 && |es[|es| - 1].line| > 0
    ensures |LastRunText(es)| > 0
  {
    var last := Runs(es)[|Runs(es)| - 1].lines;
    assert Concat(last) == Concat(last[..|last| - 1]) + last[|last| - 1];
  }

  lemma FedPerRunSnoc(es: seq<Entry>, e: Entry)
    requires |es| > 0 ==> |LastRunText(es)| > 0
    requires Fed(es, true) == Batch(LastRunText(es), LastLevel(es), Pending(PerRun(Runs(es))))
    ensures Fed(es + [e], true) ==
      Batch(LastRunText(es + [e]), LastLevel(es + [e]), Pending(PerRun(Runs(es + [e]))))
  {
    FedStep(es, e, true);
    PerRunStep(es, e);
    assert LastLevel(es + [e]) == e.level;
  }

  /** Fed with the stream emptied at each flush, the stream holds the current run's
      lines and the flushes are one per earlier run. */
  lemma {:induction false} FedPerRun(es: seq<Entry>)
    requires NonEmptyLines(es)
    ensures Fed(es, true) == Batch(LastRunText(es), LastLevel(es), Pending(PerRun(Runs(es))))
    decreases |es|
  {
    if |es| > 0 {
      var init := es[..|es| - 1];
      var e := es[|es| - 1];
      SplitLast(es);
      FedPerRun(init);
      if |init| > 0 {
        LastRunTextNonEmpty(init);
      }
      FedPerRunSnoc(init, e);
    }
  }

  /** The flushes one per run once the level of the next item is checked. */
  lemma PerRunAtLevel(es: seq<Entry>, level: LogLevel)
    requires NonEmptyLines(es)
    ensures AtLevel(Fed(es, true), level, true).flushes ==
      if |es| > 0 && LastLevel(es) != level then PerRun(Runs(es)) else Pending(PerRun(Runs(es)))
    ensures Finished(Fed(es, true)) == PerRun(Runs(es))
  {
    FedPerRun(es);
    PerRunLast(es);
    if |es| > 0 {
      LastRunTextNonEmpty(es);
    }
  }

  /** Formatting item i takes the batch from the state after the first i items to
      the state after the first i + 1. */
  lemma FedItem(items: seq<LogItem>, format: LogItem -> Result<string>, i: nat, clears: bool)
    requires LineFormatter(format) && i < FirstUnlisted(items)
    ensures var b := AtLevel(Fed(Entries(items[..i], format), clears), items[i].level, clears);
      Fed(Entries(items[..i + 1], format), clears) == b.(text := b.text + format(items[i]).value)
  {
    EntriesStep(items, format, i);
    FedStep(Entries(items[..i], format), Entry(items[i].level, format(items[i]).value), clears);
  }

  /** The flushes made before the first unlisted item throws. */
  lemma FedFails(items: seq<LogItem>, format: LogItem -> Result<string>, k: nat, clears: bool)
    requires LineFormatter(format) && k == FirstUnlisted(items) < |items|
    ensures var es := Entries(items[..k], format);
      var done := if clears then PerRun(Runs(es)) else Cumulative(Runs(es));
      AtLevel(Fed(es, clears), items[k].level, clears).flushes ==
        if k > 0 && items[k - 1].level != items[k].level then done else Pending(done)
  {
    var es := Entries(items[..k], format);
    EntriesNonEmpty(items[..k], format);
    assert |es| == k && (k > 0 ==> LastLevel(es) == items[k - 1].level);
    if clears {
      PerRunAtLevel(es, items[k].level);
    } else {
      AsWrittenAtLevel(es, items[k].level);
    }
  }

  /** The flushes of a batch whose items all have listed categories. */
  lemma FedDone(items: seq<LogItem>, format: LogItem -> Result<string>, clears: bool)
    requires LineFormatter(format) && FirstUnlisted(items) == |items|
    ensures var es := Entries(items, format);
      Finished(Fed(Entries(items[..|items|], format), clears)) ==
        if clears then PerRun(Runs(es)) else Cumulative(Runs(es))
  {
    assert items[..|items|] == items;
    var es := Entries(items, format);
    EntriesNonEmpty(items, format);
    if clears {
      PerRunAtLevel(es, Unset);
    } else {
      AsWrittenAtLevel(es, Unset);
    }
  }

  /** addLogFn as written: `o.clear()` resets the stream's state flags only, so
      every flush carries everything formatted so far in the batch. An unlisted
      category throws after the flushes made up to that item. */
  method AddLogAsWritten(items: seq<LogItem>) returns (flushes: seq<Flush>, failure: Option<string>)
    ensures FirstUnlisted(items) == |items| ==>
      failure == None && flushes == Cumulative(Runs(Entries(items, FormatLine)))
    ensures FirstUnlisted(items) < |items| ==>
      var k := FirstUnlisted(items);
      var done := Cumulative(Runs(Entries(items[..k], FormatLine)));
      && failure == Some(MissingKeyMessage)
      && flushes == if k > 0 && items[k - 1].level != items[k].level then done else Pending(done)
  {
    FormatLineIsLineFormatter();
    var format := FormatLine;
    var o := "";
    var level := Unset;
    flushes := [];
    var i := 0;
    while i < |items|
      invariant i <= FirstUnlisted(items)
      invariant Batch(o, level, flushes) == Fed(Entries(items[..i], format), false)
    {
      var item := items[i];
      ghost var before := Batch(o, level, flushes);
      if level != item.level {
        if |o| > 0 {
          flushes := flushes + [Flush(o, level)];
        }
        level := item.level;
      }
      var line := format(item);
      if line.Err? {
        assert i == FirstUnlisted(items);
        FedFails(items, format, i, false);
        assert flushes == AtLevel(before, item.level, false).flushes;
        return flushes, Some(line.message);
      }
      FedItem(items, format, i, false);
      o := o + line.value;
      i := i + 1;
    }
    FedDone(items, format, false);
    ghost var fed := Batch(o, level, flushes);
    if |o| > 0 {
      flushes := flushes + [Flush(o, level)];
    }
    assert flushes == Finished(fed);
    failure := None;
  }

  /** addLogFn with the stream emptied at each flush: one flush per run of one
      level, carrying that run's lines only. */
  method AddLog(items: seq<LogItem>) returns (flushes: seq<Flush>, failure: Option<string>)
    ensures FirstUnlisted(items) == |items| ==>
      failure == None && flushes == PerRun(Runs(Entries(items, FormatLine)))
    ensures FirstUnlisted(items) < |items| ==>
      var k := FirstUnlisted(items);
      var done := PerRun(Runs(Entries(items[..k], FormatLine)));
      && failure == Some(MissingKeyMessage)
      && flushes == if k > 0 && items[k - 1].level != items[k].level then done else Pending(done)
  {
    FormatLineIsLineFormatter();
    var format := FormatLine;
    var o := "";
    var level := Unset;
    flushes := [];
    var i := 0;
    while i < |items|
      invariant i <= FirstUnlisted(items)
      invariant Batch(o, level, flushes) == Fed(Entries(items[..i], format), true)
    {
      var item := items[i];
      ghost var before := Batch(o, level, flushes);
      if level != item.level {
        if |o| > 0 {
          flushes := flushes + [Flush(o, level)];
        }
        o := "";
        level := item.level;
      }
      var line := format(item);
      if line.Err? {
        assert i == FirstUnlisted(items);
        FedFails(items, format, i, true);
        assert flushes == AtLevel(before, item.level, true).flushes;
        return flushes, Some(line.message);
      }
      FedItem(items, format, i, true);
      o := o + line.value;
      i := i + 1;
    }
    FedDone(items, format, true);
    ghost var fed := Batch(o, level, flushes);
    if |o| > 0 {
      flushes := flushes + [Flush(o, level)];
    }
    assert flushes == Finished(fed);
    failure := None;
  }
}
