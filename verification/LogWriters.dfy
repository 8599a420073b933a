/** Any number of writers, each with its own key, opening, appending and reopening one log in any order. */
module LogWriters {
  import opened Options
  import opened LogFormat
  import opened LogReader
  import opened LogContinuity
  import opened LogTears
  import opened Words

  datatype Writer = Writer(component: string, instance: Option<int>) {
    predicate Valid() {
      IsValidComponent(component) && (instance.Some? ==> Fits(instance.value))
    }

    function Key(): string { StateKey(component, instance) }

    predicate Wrote(r: EventRecord) {
      r.component == component && r.instance == instance
    }

    function Line(q: Request, seqNo: nat): string {
      q.Line(component, instance, seqNo)
    }

    function Bytes(q: Request, seqNo: nat): string {
      q.Bytes(component, instance, seqNo)
    }

    predicate Writes(q: Request, seqNo: nat) {
      q.Writes(component, instance, seqNo)
    }

    function RecordOf(q: Request, seqNo: nat): EventRecord {
      EventRecord(q.ts, q.level, component, seqNo, q.event, instance, Line(q, seqNo))
    }

    /** The timestamp fits, and the extra fields do not pose as an instance. */
    predicate Plain(q: Request) {
      Fits(q.ts) && (instance.None? ==> ExtraInstance(UpToNul(q.extra)).None?)
    }
  }

  // ----- from text to records -----

  /** What a whole write puts into the file, and what the parser makes of it. */
  lemma LineParses(w: Writer, q: Request, seqNo: nat)
    requires w.Valid() && w.Plain(q) && Fits(seqNo) && w.Writes(q, seqNo)
    ensures var line := w.Line(q, seqNo);
      && w.Bytes(q, seqNo) == line + "\n" && line != [] && '\n' !in line
      && ParseEventRecord(line) == Some(w.RecordOf(q, seqNo))
  {
    OneLine(q.ts, q.level, w.component, seqNo, q.event, w.instance, q.extra);
    RoundTrip(q.ts, q.level, w.component, seqNo, q.event, w.instance, q.extra);
    LineCloses(q.ts, q.level, w.component, seqNo, q.event, w.instance, UpToNul(q.extra));
  }

  lemma AllParseSnoc(lines: seq<string>, line: string)
    ensures AllParse(lines + [line]) <==> AllParse(lines) && ParseEventRecord(line).Some?
  {
    assert (lines + [line])[|lines|] == line;
    forall l | l in lines
      ensures l in lines + [line]
    {
    }
  }

  /** A complete line at the end of a file is read together with whatever torn line it follows. */
  lemma LineAtEnd(file: string, line: string)
    requires line != [] && '\n' !in line
    ensures var before, after := Split(file), Split(file + (line + "\n"));
      && after == Scan(before.lines + [before.partial + line], [])
      && (AllParse(after.lines) <==> AllParse(before.lines) && ParseEventRecord(before.partial + line).Some?)
      && var r := ParseEventRecord(before.partial + line);
         Records(after.lines) == Records(before.lines) + (if r.Some? then [r.value] else [])
  {
    var before := Split(file);
    SplitLine(file, line);
    assert file + (line + "\n") == file + line + "\n";
    RecordsSnoc(before.lines, before.partial + line);
    AllParseSnoc(before.lines, before.partial + line);
  }

  /** A line appended to a log that ends at a line boundary adds its record, and no other line changes. */
  lemma AppendedRecord(file: string, w: Writer, q: Request, seqNo: nat)
    requires w.Valid() && w.Plain(q) && Fits(seqNo) && w.Writes(q, seqNo) && Split(file).partial == []
    ensures var after := Split(file + w.Bytes(q, seqNo));
      && after == Scan(Split(file).lines + [w.Line(q, seqNo)], [])
      && Records(after.lines) == Records(Split(file).lines) + [w.RecordOf(q, seqNo)]
      && (AllParse(Split(file).lines) <==> AllParse(after.lines))
  {
    LineParses(w, q, seqNo);
    AtBoundary(file, w.Line(q, seqNo), w.RecordOf(q, seqNo));
  }

  lemma AtBoundary(file: string, line: string, r: EventRecord)
    requires line != [] && '\n' !in line && ParseEventRecord(line) == Some(r) && Split(file).partial == []
    ensures var after := Split(file + (line + "\n"));
      && after == Scan(Split(file).lines + [line], []) && Records(after.lines) == Records(Split(file).lines) + [r]
      && (AllParse(Split(file).lines) <==> AllParse(after.lines))
  {
    LineAtEnd(file, line);
    assert [] + line == line;
  }

  /**
   Opening tolerates a torn last line, but an append does not mend it: the record appended next is in the
   log exactly if no torn line preceded it, and the log can be opened again exactly if the torn line with
   the record glued to it happens to parse.
   */
  lemma AppendedToTorn(file: string, w: Writer, q: Request, seqNo: nat)
    requires w.Valid() && w.Plain(q) && Fits(seqNo) && w.Writes(q, seqNo)
    ensures var before, after, line := Split(file), Split(file + w.Bytes(q, seqNo)), w.Line(q, seqNo);
      && after == Scan(before.lines + [before.partial + line], [])
      && (Records(after.lines) == Records(before.lines) + [w.RecordOf(q, seqNo)] <==> before.partial == [])
      && (AllParse(after.lines) <==> AllParse(before.lines) && ParseEventRecord(before.partial + line).Some?)
      && (before.partial != [] && before.partial[0] != '{' ==> !AllParse(after.lines))
  {
    LineParses(w, q, seqNo);
    Glued(file, w.Line(q, seqNo), w.RecordOf(q, seqNo));
  }

  lemma Glued(file: string, line: string, r: EventRecord)
    requires line != [] && '\n' !in line && ParseEventRecord(line) == Some(r) && r.raw == line
    ensures var before, after := Split(file), Split(file + (line + "\n"));
      && after == Scan(before.lines + [before.partial + line], [])
      && (Records(after.lines) == Records(before.lines) + [r] <==> before.partial == [])
      && (AllParse(after.lines) <==> AllParse(before.lines) && ParseEventRecord(before.partial + line).Some?)
      && (before.partial != [] && before.partial[0] != '{' ==> !AllParse(after.lines))
  {
    var before := Split(file);
    LineAtEnd(file, line);
    ParsedRaw(before.partial + line);
    if before.partial == [] {
      assert [] + line == line;
    } else {
      var rs, parsed := Records(before.lines), ParseEventRecord(before.partial + line);
      assert parsed.Some? ==> (rs + [parsed.value])[|rs|] == parsed.value;
      assert (rs + [r])[|rs|] == r;
    }
  }

  // ----- runs over records -----

  /** A rejected append writes nothing; a write whose durability barrier fails is in the log but not acknowledged. */
  datatype Step = Open(w: Writer) | Write(w: Writer, r: EventRecord, synced: bool) | Rejected(w: Writer)

  datatype Journal = Journal(log: seq<EventRecord>, next: map<Writer, nat>)

  predicate Enabled(j: Journal, s: Step) {
    s.w.Valid() && (s.Write? ==> s.w in j.next && s.w.Wrote(s.r) && s.r.seqNo == j.next[s.w])
  }

  function Apply(j: Journal, s: Step): Journal
    requires Enabled(j, s)
  {
    match s
    case Open(w) => j.(next := j.next[w := MaxSeq(j.log, w.component, w.instance) + 1])
    case Write(w, r, synced) => Journal(j.log + [r], j.next[w := if synced then j.next[w] + 1 else j.next[w]])
    case Rejected(_) => j
  }

  /** Where the steps, in order, lead from an empty log, if each is possible. */
  function Run(steps: seq<Step>): Option<Journal> {
    if steps == [] then Some(Journal([], map[]))
    else
      var j, last := Run(steps[..|steps| - 1]), steps[|steps| - 1];
      if j.Some? && Enabled(j.value, last) then Some(Apply(j.value, last)) else None
  }

  predicate Leads(steps: seq<Step>, j: Journal) {
    Run(steps) == Some(j)
  }

  /** The writer's latest write failed its barrier, and it has not reopened since. */
  predicate Unacknowledged(steps: seq<Step>, w: Writer) {
    steps != [] &&
    var last := steps[|steps| - 1];
    if last.w != w || last.Rejected? then Unacknowledged(steps[..|steps| - 1], w)
    else last.Write? && !last.synced
  }

  /** The writes that repeat an unacknowledged sequence number. */
  function Repeats(steps: seq<Step>, w: Writer): nat {
    if steps == [] then 0
    else
      var front, last := steps[..|steps| - 1], steps[|steps| - 1];
      Repeats(front, w) + (if last.Write? && last.w == w && Unacknowledged(front, w) then 1 else 0)
  }

  ghost predicate KeyState(steps: seq<Step>, j: Journal, w: Writer) {
    var s := ObserveAll(SeqsOf(j.log, w.Key()));
    && s.missed == 0 && s.gaps == Repeats(steps, w)
    && s.expectedSeq == MaxSeq(j.log, w.component, w.instance) + 1
    && (w in j.next ==> j.next[w] == if Unacknowledged(steps, w) then s.expectedSeq - 1 else s.expectedSeq)
    && (w !in j.next ==> !Unacknowledged(steps, w))
    && (Unacknowledged(steps, w) ==> s.expectedSeq > 1)
  }

  lemma SeqsSnoc(rs: seq<EventRecord>, r: EventRecord, key: string)
    ensures SeqsOf(rs + [r], key) == SeqsOf(rs, key) + (if KeyOf(r) == key then [r.seqNo] else [])
  {
    assert (rs + [r])[..|rs|] == rs;
  }

  lemma {:induction false} RunKeeps(steps: seq<Step>, j: Journal, w: Writer)
    requires Leads(steps, j) && w.Valid()
    ensures KeyState(steps, j, w)
    decreases |steps|
  {
    if steps != [] {
      var front, last := steps[..|steps| - 1], steps[|steps| - 1];
      var before := Run(front).value;
      RunKeeps(front, before, w);
      if last.Write? {
        WriteKeeps(steps, front, before, last, w);
      } else {
        OpenKeeps(steps, front, before, last, w);
      }
    }
  }

  lemma OpenKeeps(steps: seq<Step>, front: seq<Step>, before: Journal, last: Step, w: Writer)
    requires steps == front + [last] && !last.Write? && Enabled(before, last) && w.Valid() && KeyState(front, before, w)
    ensures KeyState(steps, Apply(before, last), w)
  {
    assert steps[..|steps| - 1] == front;
  }

  lemma WriteKeeps(steps: seq<Step>, front: seq<Step>, before: Journal, last: Step, w: Writer)
    requires steps == front + [last] && last.Write? && Enabled(before, last) && w.Valid() && KeyState(front, before, w)
    ensures KeyState(steps, Apply(before, last), w)
  {
    var r := last.r;
    assert steps[..|steps| - 1] == front;
    SeqsSnoc(before.log, r, w.Key());
    MaxSnoc(before.log, r, w.component, w.instance);
    if last.w == w {
      ObserveSnoc(SeqsOf(before.log, w.Key()), r.seqNo);
    } else {
      KeysDiffer(r.component, r.instance, w.component, w.instance);
      assert SeqsOf(before.log, w.Key()) + [] == SeqsOf(before.log, w.Key());
    }
  }

  /**
   Whatever the interleaving of writers with distinct keys, reopenings included: the continuity state a
   reader has for a writer's key misses nothing, and counts exactly one gap for each write that repeats a
   sequence number whose durability barrier had failed. In particular it counts none if every barrier succeeds.
   */
  lemma WritersLeaveNoGaps(steps: seq<Step>, j: Journal, w: Writer)
    requires Leads(steps, j) && w.Valid()
    ensures var s := StateFor(Continuity(j.log), w.Key());
      s.missed == 0 && s.gaps == Repeats(steps, w)
    ensures (forall s | s in steps && s.Write? && s.w == w :: s.synced) ==>
            StateFor(Continuity(j.log), w.Key()).gaps == 0
  {
    RunKeeps(steps, j, w);
    StatePerKey(j.log, w.Key());
    if forall s | s in steps && s.Write? && s.w == w :: s.synced {
      SyncedNeverRepeats(steps, w);
    }
  }

  lemma {:induction false} SyncedNeverRepeats(steps: seq<Step>, w: Writer)
    requires forall s | s in steps && s.Write? && s.w == w :: s.synced
    ensures !Unacknowledged(steps, w) && Repeats(steps, w) == 0
    decreases |steps|
  {
    if steps != [] {
      assert steps[|steps| - 1] in steps;
      SyncedNeverRepeats(steps[..|steps| - 1], w);
    }
  }

  lemma RunSnoc(steps: seq<Step>, j: Journal, s: Step)
    requires Leads(steps, j) && Enabled(j, s)
    ensures Leads(steps + [s], Apply(j, s))
  {
    assert (steps + [s])[..|steps|] == steps;
  }

  lemma BarrierRun(w: Writer, a: EventRecord, b: EventRecord)
    requires w.Valid() && w.Wrote(a) && w.Wrote(b) && a.seqNo == b.seqNo == 1
    ensures Leads([Open(w), Write(w, a, false), Write(w, b, true)], Journal([a, b], map[w := 2]))
  {
    var j0, j1, j2 := Journal([], map[]), Journal([], map[w := 1]), Journal([a], map[w := 1]);
    assert Apply(j0, Open(w)) == j1;
    RunSnoc([], j0, Open(w));
    assert [] + [Open(w)] == [Open(w)];
    assert Apply(j1, Write(w, a, false)) == j2;
    RunSnoc([Open(w)], j1, Write(w, a, false));
    assert [Open(w)] + [Write(w, a, false)] == [Open(w), Write(w, a, false)];
    assert Apply(j2, Write(w, b, true)) == Journal([a, b], map[w := 2]);
    RunSnoc([Open(w), Write(w, a, false)], j2, Write(w, b, true));
    assert [Open(w), Write(w, a, false)] + [Write(w, b, true)] == [Open(w), Write(w, a, false), Write(w, b, true)];
  }

  /** One write repeats the number of an unacknowledged one. */
  lemma BarrierRepeats(w: Writer, a: EventRecord, b: EventRecord)
    ensures Repeats([Open(w), Write(w, a, false), Write(w, b, true)], w) == 1
  {
    var s1, s2, s3 := [Open(w)], [Open(w), Write(w, a, false)], [Open(w), Write(w, a, false), Write(w, b, true)];
    assert s1[..0] == [] && s2[..1] == s1 && s3[..2] == s2;
    assert !Unacknowledged(s1, w) && Unacknowledged(s2, w);
    assert Repeats(s1, w) == 0 && Repeats(s2, w) == 0;
  }

  /** A failed barrier followed by one more append does show as a gap. */
  lemma FailedBarrierShows(w: Writer, a: EventRecord, b: EventRecord)
    requires w.Valid() && w.Wrote(a) && w.Wrote(b) && a.seqNo == b.seqNo == 1
    ensures var steps := [Open(w), Write(w, a, false), Write(w, b, true)];
      Leads(steps, Journal([a, b], map[w := 2])) && StateFor(Continuity([a, b]), w.Key()).gaps == 1
  {
    BarrierRun(w, a, b);
    BarrierRepeats(w, a, b);
    WritersLeaveNoGaps([Open(w), Write(w, a, false), Write(w, b, true)], Journal([a, b], map[w := 2]), w);
  }

  // ----- runs over the file -----

  datatype TextStep = OpenLog(w: Writer) | AppendLog(w: Writer, q: Request)

  /** The file all writers share, and the next number of each writer that has it open. */
  datatype SharedLog = SharedLog(file: string, next: map<Writer, nat>)

  /** What opening and appending do; a writer whose opening is refused is closed. */
  function ApplyText(l: SharedLog, s: TextStep): SharedLog {
    match s
    case OpenLog(w) =>
      var lines := Split(l.file).lines;
      if IsValidComponent(w.component) && AllParse(lines) then
        l.(next := l.next[w := MaxSeq(Records(lines), w.component, w.instance) + 1])
      else l.(next := l.next - {w})
    case AppendLog(w, q) =>
      if w !in l.next then l
      else
        var seqNo := l.next[w];
        SharedLog(l.file + w.Bytes(q, seqNo),
                  if w.Writes(q, seqNo) && q.Acknowledged() then l.next[w := seqNo + 1] else l.next)
  }

  function RunText(steps: seq<TextStep>): SharedLog {
    if steps == [] then SharedLog([], map[])
    else ApplyText(RunText(steps[..|steps| - 1]), steps[|steps| - 1])
  }

  /** The step that a step on the file is for the records in it. */
  function JournalStep(l: SharedLog, s: TextStep): Step {
    match s
    case OpenLog(w) => Open(w)
    case AppendLog(w, q) =>
      if w in l.next && w.Writes(q, l.next[w]) then Write(w, w.RecordOf(q, l.next[w]), q.Acknowledged())
      else Rejected(w)
  }

  function Journaled(steps: seq<TextStep>): seq<Step> {
    if steps == [] then []
    else
      var front := steps[..|steps| - 1];
      Journaled(front) + [JournalStep(RunText(front), steps[|steps| - 1])]
  }

  /** No write is cut short. */
  predicate Uncut(s: TextStep) {
    s.AppendLog? ==> s.q.written.Whole? || s.q.written == Only(0)
  }

  predicate Orderly(steps: seq<TextStep>) {
    forall s | s in steps :: s.w.Valid() && Uncut(s) && (s.AppendLog? ==> s.w.Plain(s.q))
  }

  /** No number in use is past k. */
  ghost predicate Numbered(rs: seq<EventRecord>, next: map<Writer, nat>, k: nat) {
    && (forall w | w in next :: 1 <= next[w] <= k + 1)
    && (forall component, instance :: MaxSeq(rs, component, instance) <= k)
  }

  /** Every line is whole and parses, and the records are those the journal of the run holds. */
  ghost predicate Refines(steps: seq<TextStep>, l: SharedLog) {
    && Split(l.file).partial == [] && AllParse(Split(l.file).lines)
    && Leads(Journaled(steps), Journal(Records(Split(l.file).lines), l.next))
    && Numbered(Records(Split(l.file).lines), l.next, |steps|)
  }

  lemma LastStep(front: seq<TextStep>, s: TextStep)
    ensures RunText(front + [s]) == ApplyText(RunText(front), s)
    ensures Journaled(front + [s]) == Journaled(front) + [JournalStep(RunText(front), s)]
  {
    assert (front + [s])[..|front|] == front;
  }

  lemma {:induction false} OpenRefines(front: seq<TextStep>, w: Writer)
    requires w.Valid() && Refines(front, RunText(front))
    ensures Refines(front + [OpenLog(w)], RunText(front + [OpenLog(w)]))
  {
    var l := RunText(front);
    LastStep(front, OpenLog(w));
    RunSnoc(Journaled(front), Journal(Records(Split(l.file).lines), l.next), Open(w));
  }

  lemma {:induction false} NothingRefines(front: seq<TextStep>, w: Writer, q: Request)
    requires w.Valid() && Uncut(AppendLog(w, q)) && Refines(front, RunText(front))
    requires w !in RunText(front).next || !w.Writes(q, RunText(front).next[w])
    ensures Refines(front + [AppendLog(w, q)], RunText(front + [AppendLog(w, q)]))
  {
    var l := RunText(front);
    LastStep(front, AppendLog(w, q));
    RunSnoc(Journaled(front), Journal(Records(Split(l.file).lines), l.next), Rejected(w));
    if w in l.next {
      assert w.Bytes(q, l.next[w]) == [] && l.file + [] == l.file;
    }
  }

  lemma NumberedSnoc(rs: seq<EventRecord>, r: EventRecord, next: map<Writer, nat>, next': map<Writer, nat>,
                     w: Writer, k: nat)
    requires Numbered(rs, next, k) && r.seqNo <= k + 1 && (next' == next || next' == next[w := r.seqNo + 1])
    ensures Numbered(rs + [r], next', k + 1)
  {
    forall component, instance
      ensures MaxSeq(rs + [r], component, instance) <= k + 1
    {
      MaxSnoc(rs, r, component, instance);
    }
  }

  lemma WriteApplies(steps: seq<Step>, j: Journal, w: Writer, r: EventRecord, synced: bool)
    requires Leads(steps, j) && Enabled(j, Write(w, r, synced))
    ensures Leads(steps + [Write(w, r, synced)],
                  Journal(j.log + [r], if synced then j.next[w := r.seqNo + 1] else j.next))
  {
    RunSnoc(steps, j, Write(w, r, synced));
    assert j.next[w := j.next[w]] == j.next;
  }

  lemma {:induction false} WriteStep(l: SharedLog, w: Writer, q: Request)
    requires w in l.next && w.Writes(q, l.next[w])
    ensures var s, r := AppendLog(w, q), w.RecordOf(q, l.next[w]);
      && JournalStep(l, s) == Write(w, r, q.Acknowledged()) && w.Wrote(r) && r.seqNo == l.next[w]
      && ApplyText(l, s).file == l.file + w.Bytes(q, l.next[w])
      && ApplyText(l, s).next == (if q.Acknowledged() then l.next[w := l.next[w] + 1] else l.next)
  {
  }

  /** A step that writes r extends the run over records. */
  lemma {:induction false} WriteJournal(front: seq<TextStep>, l: SharedLog, s: TextStep, l': SharedLog, r: EventRecord)
    requires s.w.Valid() && l == RunText(front) && Refines(front, l) && s.w in l.next
    requires s.AppendLog? && JournalStep(l, s) == Write(s.w, r, s.q.Acknowledged())
    requires s.w.Wrote(r) && r.seqNo == l.next[s.w] && l' == ApplyText(l, s)
    requires l'.next == if s.q.Acknowledged() then l.next[s.w := r.seqNo + 1] else l.next
    ensures RunText(front + [s]) == l'
    ensures Leads(Journaled(front + [s]), Journal(Records(Split(l.file).lines) + [r], l'.next))
    ensures Numbered(Records(Split(l.file).lines) + [r], l'.next, |front| + 1)
  {
    var rs := Records(Split(l.file).lines);
    LastStep(front, s);
    WriteApplies(Journaled(front), Journal(rs, l.next), s.w, r, s.q.Acknowledged());
    NumberedSnoc(rs, r, l.next, l'.next, s.w, |front|);
  }

  lemma {:induction false} WriteRefines(front: seq<TextStep>, w: Writer, q: Request)
    requires w.Valid() && w.Plain(q) && Refines(front, RunText(front)) && |front| + 1 < TWO_TO_THE_63
    requires w in RunText(front).next && w.Writes(q, RunText(front).next[w])
    ensures Refines(front + [AppendLog(w, q)], RunText(front + [AppendLog(w, q)]))
  {
    var l, s := RunText(front), AppendLog(w, q);
    WriteStep(l, w, q);
    WriteJournal(front, l, s, ApplyText(l, s), w.RecordOf(q, l.next[w]));
    AppendedRecord(l.file, w, q, l.next[w]);
  }

  /**
   In every run over the file in which no write is cut short, every opening succeeds on a log of whole lines
   that all parse, and the records in it are those of the run over records.
   */
  lemma {:induction false} TextRefines(steps: seq<TextStep>)
    requires Orderly(steps) && |steps| < TWO_TO_THE_63
    ensures Refines(steps, RunText(steps))
    decreases |steps|
  {
    if steps != [] {
      var front, last := steps[..|steps| - 1], steps[|steps| - 1];
      assert last in steps && front + [last] == steps;
      TextRefines(front);
      match last
      case OpenLog(w) => OpenRefines(front, w);
      case AppendLog(w, q) =>
        if w in RunText(front).next && w.Writes(q, RunText(front).next[w]) {
          WriteRefines(front, w, q);
        } else {
          NothingRefines(front, w, q);
        }
    }
  }

  predicate AlwaysSynced(steps: seq<TextStep>, w: Writer) {
    forall s | s in steps && s.AppendLog? && s.w == w :: s.q.Acknowledged()
  }

  lemma {:induction false} SyncedJournal(steps: seq<TextStep>, w: Writer)
    requires AlwaysSynced(steps, w)
    ensures forall s | s in Journaled(steps) && s.Write? && s.w == w :: s.synced
    decreases |steps|
  {
    if steps != [] {
      assert steps[|steps| - 1] in steps;
      SyncedJournal(steps[..|steps| - 1], w);
    }
  }

  /**
   What a reader of the shared file finds for a writer's key, after any interleaving of openings and appends:
   nothing missed, and one gap for each write that repeats a number whose barrier had failed, so none if no
   barrier of that writer fails.
   */
  lemma FileShowsNoGaps(steps: seq<TextStep>, w: Writer)
    requires Orderly(steps) && |steps| < TWO_TO_THE_63 && w.Valid()
    ensures var s := StateFor(Continuity(Records(Split(RunText(steps).file).lines)), w.Key());
      s.missed == 0 && s.gaps == Repeats(Journaled(steps), w) && (AlwaysSynced(steps, w) ==> s.gaps == 0)
  {
    TextRefines(steps);
    var l := RunText(steps);
    WritersLeaveNoGaps(Journaled(steps), Journal(Records(Split(l.file).lines), l.next), w);
    if AlwaysSynced(steps, w) {
      SyncedJournal(steps, w);
    }
  }

  // ----- what a write cut short does -----

  lemma LineShape(w: Writer, q: Request, seqNo: nat)
    requires w.Valid() && q.Accepted(w.component, w.instance, seqNo)
    ensures var line := w.Line(q, seqNo);
      && |line| > 10 && line[..10] == "{" + NumberKey("schema") && line[0] == '{' && Closed(line) && '\n' !in line
  {
    OneLine(q.ts, q.level, w.component, seqNo, q.event, w.instance, q.extra);
    LineCloses(q.ts, q.level, w.component, seqNo, q.event, w.instance, UpToNul(q.extra));
    SchemaStarts(FromTs(q.ts, q.level, w.component, seqNo, q.event, w.instance, UpToNul(q.extra)));
  }

  /** Two appends in a row by one writer, the first cut short and the second whole and acknowledged. */
  function AfterCut(l: SharedLog, w: Writer, a: Request, b: Request): SharedLog {
    ApplyText(ApplyText(l, AppendLog(w, a)), AppendLog(w, b))
  }

  predicate CutThenWhole(l: SharedLog, w: Writer, a: Request, b: Request) {
    && w.Valid() && w in l.next && Split(l.file).partial == [] && AllParse(Split(l.file).lines)
    && a.Accepted(w.component, w.instance, l.next[w]) && a.written.Only?
    && w.Writes(b, l.next[w]) && b.Acknowledged()
  }

  lemma CutStep(l: SharedLog, w: Writer, a: Request)
    requires w in l.next && a.written.Only?
    ensures ApplyText(l, AppendLog(w, a)) == SharedLog(l.file + w.Bytes(a, l.next[w]), l.next)
  {
  }

  lemma AcceptedBytes(w: Writer, q: Request, seqNo: nat)
    requires q.Accepted(w.component, w.instance, seqNo)
    ensures var line := w.Line(q, seqNo);
      w.Bytes(q, seqNo) ==
      if q.written.Whole? then line + "\n" else if q.written.bytes < |line| then line[..q.written.bytes] else line
  {
  }

  lemma {:induction false} CutSteps(l: SharedLog, w: Writer, a: Request, b: Request, torn: string, line: string)
    requires CutThenWhole(l, w, a, b) && torn == w.Bytes(a, l.next[w]) && line == w.Line(b, l.next[w])
    ensures AfterCut(l, w, a, b) == SharedLog(l.file + torn + (line + "\n"), l.next[w := l.next[w] + 1])
  {
    CutStep(l, w, a);
    WriteStep(ApplyText(l, AppendLog(w, a)), w, b);
    AcceptedBytes(w, b, l.next[w]);
  }

  lemma TornThenWhole(file: string, torn: string, line: string)
    requires Split(file).partial == [] && AllParse(Split(file).lines)
    requires '\n' !in torn && line != [] && '\n' !in line
    ensures var lines, after := Split(file).lines, Split(file + torn + (line + "\n"));
      && after == Scan(lines + [torn + line], [])
      && (AllParse(after.lines) <==> ParseEventRecord(torn + line).Some?)
      && var r := ParseEventRecord(torn + line);
         Records(after.lines) == Records(lines) + (if r.Some? then [r.value] else [])
  {
    SplitPlain(file, torn);
    assert [] + torn == torn;
    LineAtEnd(file + torn, line);
  }

  /**
   A write cut short after the first key makes the next record, although its append reports success, part of
   a line that does not parse: the record is not in the log, and no writer can open the log again.
   */
  lemma {:induction false} CutLocksLog(l: SharedLog, w: Writer, a: Request, b: Request)
    requires CutThenWhole(l, w, a, b) && a.written == Only(10)
    ensures var after := AfterCut(l, w, a, b);
      && after.next == l.next[w := l.next[w] + 1]
      && Records(Split(after.file).lines) == Records(Split(l.file).lines)
      && forall v :: v !in ApplyText(after, OpenLog(v)).next
  {
    var torn, line := w.Line(a, l.next[w])[..10], w.Line(b, l.next[w]);
    CutShapes(l, w, a, b);
    CutSteps(l, w, a, b, torn, line);
    TornThenWhole(l.file, torn, line);
    BrokenKey(line);
    Locked(AfterCut(l, w, a, b));
  }

  lemma OpensIfParsed(l: SharedLog)
    ensures forall v: Writer | IsValidComponent(v.component) ::
              v in ApplyText(l, OpenLog(v)).next <==> AllParse(Split(l.file).lines)
  {
  }

  lemma WholeParses(w: Writer, q: Request, seqNo: nat)
    requires w.Valid() && Fits(q.ts) && Fits(seqNo) && q.Accepted(w.component, w.instance, seqNo)
    ensures ParseEventRecord(w.Line(q, seqNo)).Some?
  {
    RoundTrip(q.ts, q.level, w.component, seqNo, q.event, w.instance, q.extra);
  }

  lemma TornRequest(w: Writer, q: Request, seqNo: nat, k: nat, t: string)
    requires w.Valid() && Fits(q.ts) && Fits(seqNo) && q.Accepted(w.component, w.instance, seqNo)
    requires k <= |w.Line(q, seqNo)| && ParseEventRecord(t).Some?
    ensures HasKeys(w.Line(q, seqNo))
    ensures ParseEventRecord(w.Line(q, seqNo)[..k] + t).Some? <==> !Spoils(w.Line(q, seqNo), q.level, k)
  {
    TornParses(q.ts, q.level, w.component, seqNo, q.event, w.instance, UpToNul(q.extra), k, t);
  }

  /**
   For every cut: the acknowledged record behind it leaves no record at all, and no writer can open the log
   again, exactly if the cut spoils its line; after any other cut the log opens.
   */
  lemma {:induction false} CutsThatLock(l: SharedLog, w: Writer, a: Request, b: Request)
    requires CutThenWhole(l, w, a, b) && Fits(a.ts) && Fits(b.ts) && Fits(l.next[w])
    ensures HasKeys(w.Line(a, l.next[w]))
    ensures var after, spoils := AfterCut(l, w, a, b), Spoils(w.Line(a, l.next[w]), a.level, |w.Bytes(a, l.next[w])|);
      && after.next == l.next[w := l.next[w] + 1]
      && (Records(Split(after.file).lines) == Records(Split(l.file).lines) <==> spoils)
      && forall v: Writer | IsValidComponent(v.component) :: v in ApplyText(after, OpenLog(v)).next <==> !spoils
  {
    var lineA, line, torn := w.Line(a, l.next[w]), w.Line(b, l.next[w]), w.Bytes(a, l.next[w]);
    CutShapes(l, w, a, b);
    assert torn == lineA[..|torn|];
    CutSteps(l, w, a, b, torn, line);
    TornThenWhole(l.file, torn, line);
    WholeParses(w, b, l.next[w]);
    TornRequest(w, a, l.next[w], |torn|, line);
    OpensIfParsed(AfterCut(l, w, a, b));
  }

  lemma Locked(l: SharedLog)
    requires !AllParse(Split(l.file).lines)
    ensures forall v :: v !in ApplyText(l, OpenLog(v)).next
  {
  }

  lemma {:induction false} CutShapes(l: SharedLog, w: Writer, a: Request, b: Request)
    requires CutThenWhole(l, w, a, b)
    ensures var lineA, lineB := w.Line(a, l.next[w]), w.Line(b, l.next[w]);
      && |lineA| > 10 && lineA[..10] == "{" + NumberKey("schema") && '\n' !in lineA
      && |lineB| > 10 && lineB[0] == '{' && Closed(lineB) && '\n' !in lineB
      && w.Bytes(a, l.next[w]) == if a.written.bytes < |lineA| then lineA[..a.written.bytes] else lineA
  {
    LineShape(w, a, l.next[w]);
    LineShape(w, b, l.next[w]);
    AcceptedBytes(w, a, l.next[w]);
  }

  /**
   A write cut short just before its newline: the log then shows, under the number of the record appended
   next, the record whose append failed instead, whole and without any gap.
   */
  lemma {:induction false} CutHidesRecord(l: SharedLog, w: Writer, a: Request, b: Request)
    requires CutThenWhole(l, w, a, b) && a.written == Only(|w.Line(a, l.next[w])|) && w.instance.Some?
    requires Fits(a.ts) && Fits(l.next[w]) && UpToNul(a.extra) != []
    ensures var after, seqNo := AfterCut(l, w, a, b), l.next[w];
      && after.next == l.next[w := seqNo + 1] && AllParse(Split(after.file).lines)
      && Records(Split(after.file).lines) ==
         Records(Split(l.file).lines) + [w.RecordOf(a, seqNo).(raw := w.Line(a, seqNo) + w.Line(b, seqNo))]
  {
    var torn, line := w.Line(a, l.next[w]), w.Line(b, l.next[w]);
    CutShapes(l, w, a, b);
    CutSteps(l, w, a, b, torn, line);
    TornThenWhole(l.file, torn, line);
    FirstRecord(w, a, l.next[w], line);
  }

  lemma FirstRecord(w: Writer, q: Request, seqNo: nat, more: string)
    requires w.Valid() && w.instance.Some? && q.Accepted(w.component, w.instance, seqNo)
    requires Fits(q.ts) && Fits(seqNo) && UpToNul(q.extra) != [] && Closed(more)
    ensures var glued := w.Line(q, seqNo) + more;
      ParseEventRecord(glued) == Some(w.RecordOf(q, seqNo).(raw := glued))
  {
    FirstOfTwo(q.ts, q.level, w.component, seqNo, q.event, w.instance, q.extra, more);
  }
}
