/** Following a growing log, what the continuity states mean, and what writers do to them. */
module LogContinuity {
  import opened Options
  import opened LogFormat
  import opened LogReader

  // ----- following a growing file -----

  lemma {:induction false} SyncedGrows(reader: EventLogReader, file: string, longer: string)
    requires reader.Synced(file) && file <= longer
    ensures reader.Synced(longer) && longer[..reader.Cursor()] == file[..reader.Cursor()]
  {
    assert longer[..reader.Cursor()] == file[..reader.Cursor()];
    assert longer[reader.pos - |reader.line|..reader.pos] == file[reader.pos - |reader.line|..reader.pos];
  }

  /** Each poll sees the file at least as long as the one before. */
  predicate Growing(files: seq<string>) {
    forall i, j | 0 <= i <= j < |files| :: files[i] <= files[j]
  }

  /**
   Polls a growing log, one call at a time, with any sizes of reads and any ends of file in between: the
   records returned are exactly those of the lines consumed, in order, each once.
   */
  method Follow(reader: EventLogReader, files: seq<string>, sizes: seq<seq<nat>>) returns (records: seq<EventRecord>)
    requires files != [] && Growing(files) && |sizes| == |files| && reader.Synced(files[0])
    modifies reader
    ensures reader.Synced(files[|files| - 1])
    ensures Records(Split(files[|files| - 1][..reader.Cursor()]).lines) ==
            old(Records(Split(files[0][..reader.Cursor()]).lines)) + records
  {
    records := [];
    ghost var file := files[0];
    ghost var before := Records(Split(file[..reader.Cursor()]).lines);
    for i := 0 to |files|
      invariant i > 0 ==> file == files[i - 1]
      invariant i < |files| ==> file <= files[i]
      invariant Returned(reader, file, before, records)
    {
      records := PollOnce(reader, file, files[i], sizes[i], before, records);
      file := files[i];
    }
  }

  /** Since before, exactly the given records were returned. */
  ghost predicate Returned(reader: EventLogReader, file: string, before: seq<EventRecord>, records: seq<EventRecord>)
    reads reader
  {
    reader.Synced(file) && Records(Split(file[..reader.Cursor()]).lines) == before + records
  }

  /** One poll of a file that may have grown. */
  method PollOnce(reader: EventLogReader, ghost file: string, longer: string, sizes: seq<nat>,
                  ghost before: seq<EventRecord>, records: seq<EventRecord>)
    returns (records': seq<EventRecord>)
    requires Returned(reader, file, before, records) && file <= longer
    modifies reader
    ensures Returned(reader, longer, before, records')
  {
    SyncedGrows(reader, file, longer);
    ghost var lines := Split(longer[..reader.Cursor()]).lines;
    var status, record, raw := reader.ReadNext(longer, sizes);
    records' := records;
    if status.Ok? || status.Malformed? {
      RecordsSnoc(lines, raw);
    }
    if status.Ok? {
      records' := records + [record.value];
      assert before + records' == (before + records) + [record.value];
    }
  }

  // ----- one key at a time -----

  /** The sequence numbers of one key's records, in log order. */
  function SeqsOf(rs: seq<EventRecord>, key: string): seq<nat> {
    if rs == [] then []
    else
      var r := rs[|rs| - 1];
      SeqsOf(rs[..|rs| - 1], key) + (if KeyOf(r) == key then [r.seqNo] else [])
  }

  function ObserveAll(qs: seq<nat>): SequenceState {
    if qs == [] then SequenceState(1, 0, 0) else Observe(ObserveAll(qs[..|qs| - 1]), qs[|qs| - 1])
  }

  lemma ObserveSnoc(qs: seq<nat>, q: nat)
    ensures ObserveAll(qs + [q]) == Observe(ObserveAll(qs), q)
  {
    assert (qs + [q])[..|qs|] == qs;
  }

  /** A key's state depends on its own records only, however other keys' records are interleaved. */
  lemma {:induction false} StatePerKey(rs: seq<EventRecord>, key: string)
    ensures StateFor(Continuity(rs), key) == ObserveAll(SeqsOf(rs, key))
    decreases |rs|
  {
    if rs != [] {
      var front, r := rs[..|rs| - 1], rs[|rs| - 1];
      StatePerKey(front, key);
      if KeyOf(r) == key {
        ObserveSnoc(SeqsOf(front, key), r.seqNo);
      } else {
        assert SeqsOf(front, key) + [] == SeqsOf(front, key);
      }
    }
  }

  predicate Increasing(qs: seq<nat>) {
    (forall i, j | 0 <= i < j < |qs| :: qs[i] < qs[j]) && (forall i | 0 <= i < |qs| :: 1 <= qs[i])
  }

  /** For a key whose records come in order, seen and missed numbers add up to the expected one less one. */
  lemma {:induction false} InOrderAccounting(qs: seq<nat>)
    requires Increasing(qs)
    ensures var s := ObserveAll(qs);
      s.expectedSeq - 1 == |qs| + s.missed && s.expectedSeq == (if qs == [] then 1 else qs[|qs| - 1] + 1)
    decreases |qs|
  {
    if qs != [] {
      InOrderAccounting(qs[..|qs| - 1]);
      assert |qs| > 1 ==> qs[|qs| - 2] < qs[|qs| - 1];
    }
  }

  /** The numbers 1, 2, 3, ... */
  predicate Consecutive(qs: seq<nat>) {
    forall i | 0 <= i < |qs| :: qs[i] == i + 1
  }

  /** No gap is counted exactly for the sequence numbers 1, 2, 3, ... */
  lemma {:induction false} NoGapsExactly(qs: seq<nat>)
    ensures ObserveAll(qs).gaps == 0 <==> Consecutive(qs)
    ensures Consecutive(qs) ==> ObserveAll(qs) == SequenceState(|qs| + 1, 0, 0)
    decreases |qs|
  {
    if qs != [] {
      var front := qs[..|qs| - 1];
      NoGapsExactly(front);
      if Consecutive(qs) {
        assert Consecutive(front);
      }
      if Consecutive(front) && qs[|qs| - 1] == |qs| {
        assert Consecutive(qs);
      }
      if Consecutive(qs) {
        assert qs[|qs| - 1] == |qs|;
      }
    }
  }

  /** The greatest of the numbers seen, 0 before any. */
  function Greatest(qs: seq<nat>): (m: nat)
    ensures forall q | q in qs :: q <= m
    ensures m > 0 ==> m in qs
  {
    if qs == [] then 0
    else
      var before := Greatest(qs[..|qs| - 1]);
      assert qs == qs[..|qs| - 1] + [qs[|qs| - 1]];
      if qs[|qs| - 1] > before then qs[|qs| - 1] else before
  }

  /** The arrivals that are not the next number after the greatest so far. */
  function Strays(qs: seq<nat>): set<nat> {
    set i | 0 <= i < |qs| && qs[i] != Greatest(qs[..i]) + 1
  }

  /** The arrivals that are beyond the greatest so far. */
  function Advances(qs: seq<nat>): set<nat> {
    set i | 0 <= i < |qs| && qs[i] > Greatest(qs[..i])
  }

  lemma FrontSame(qs: seq<nat>)
    requires qs != []
    ensures var front := qs[..|qs| - 1]; forall i | 0 <= i < |front| :: front[..i] == qs[..i] && front[i] == qs[i]
  {
  }

  lemma StraysSnoc(qs: seq<nat>)
    requires qs != []
    ensures var n := |qs| - 1; Strays(qs) == Strays(qs[..n]) + (if qs[n] != Greatest(qs[..n]) + 1 then {n} else {})
  {
    FrontSame(qs);
  }

  lemma AdvancesSnoc(qs: seq<nat>)
    requires qs != []
    ensures var n := |qs| - 1; Advances(qs) == Advances(qs[..n]) + (if qs[n] > Greatest(qs[..n]) then {n} else {})
  {
    FrontSame(qs);
  }

  /**
   In whatever order the numbers of a key arrive: a gap is counted for each one that is not the next after the
   greatest so far, and the missed numbers are those up to the greatest less the arrivals that went beyond it.
   */
  lemma {:induction false} ObservedExactly(qs: seq<nat>)
    ensures var s := ObserveAll(qs);
      && s.expectedSeq == Greatest(qs) + 1 && s.gaps == |Strays(qs)|
      && s.missed + |Advances(qs)| == Greatest(qs)
    decreases |qs|
  {
    if qs != [] {
      ObservedExactly(qs[..|qs| - 1]);
      StraysSnoc(qs);
      AdvancesSnoc(qs);
    }
  }

  // ----- writers -----

  lemma NoSlash(component: string)
    requires IsValidComponent(component)
    ensures '/' !in component
  {
    assert !IsComponentChar('/');
  }

  /** Different writers have different keys. */
  lemma KeysDiffer(c: string, i: Option<int>, c': string, i': Option<int>)
    requires IsValidComponent(c) && IsValidComponent(c') && (c != c' || i != i')
    requires (i.Some? ==> Fits(i.value)) && (i'.Some? ==> Fits(i'.value))
    ensures StateKey(c, i) != StateKey(c', i')
  {
    NoSlash(c);
    NoSlash(c');
    var k, k' := StateKey(c, i), StateKey(c', i');
    if i.Some? {
      assert k[|c|] == '/' && k[|c| + 1..] == Decimal(i.value) && k[..|c|] == c;
    }
    if i'.Some? {
      assert k'[|c'|] == '/' && k'[|c'| + 1..] == Decimal(i'.value) && k'[..|c'|] == c';
    }
    if i.Some? && i'.Some? {
      NumberRoundTrip(i.value, []);
      NumberRoundTrip(i'.value, []);
      assert Decimal(i.value) + [] == Decimal(i.value) && Decimal(i'.value) + [] == Decimal(i'.value);
      SlashAt(c, c', k, k');
    }
  }

  lemma SlashAt(c: string, c': string, k: string, k': string)
    requires '/' !in c && '/' !in c' && |c| < |k| && |c'| < |k'| && k[..|c|] == c && k'[..|c'|] == c'
    requires k[|c|] == '/' && k'[|c'|] == '/'
    ensures k == k' ==> |c| == |c'|
  {
    assert forall i | 0 <= i < |c| :: c[i] in c && k[i] == c[i];
    assert forall i | 0 <= i < |c'| :: c'[i] in c' && k'[i] == c'[i];
  }

  /** The greatest sequence number recorded under a component and instance. */
  function MaxSeq(rs: seq<EventRecord>, component: string, instance: Option<int>): nat {
    if rs == [] then 0
    else
      var max, r := MaxSeq(rs[..|rs| - 1], component, instance), rs[|rs| - 1];
      if r.component == component && r.instance == instance && r.seqNo > max then r.seqNo else max
  }

  /** No record of the component and instance has a greater number, and unless it is 0 one of them has it. */
  lemma {:induction false} MaxIsGreatest(rs: seq<EventRecord>, component: string, instance: Option<int>)
    ensures var m := MaxSeq(rs, component, instance);
      && (forall r | r in rs && r.component == component && r.instance == instance :: r.seqNo <= m)
      && (m > 0 ==> exists r :: r in rs && r.component == component && r.instance == instance && r.seqNo == m)
    decreases |rs|
  {
    if rs != [] {
      var front, last := rs[..|rs| - 1], rs[|rs| - 1];
      MaxIsGreatest(front, component, instance);
      assert rs == front + [last];
      assert last in rs && forall r | r in front :: r in rs;
    }
  }

  lemma MaxSnoc(rs: seq<EventRecord>, r: EventRecord, component: string, instance: Option<int>)
    ensures MaxSeq(rs + [r], component, instance) ==
            var max := MaxSeq(rs, component, instance);
            if r.component == component && r.instance == instance && r.seqNo > max then r.seqNo else max
  {
    assert (rs + [r])[..|rs|] == rs;
  }

  predicate AllParse(lines: seq<string>) {
    forall l | l in lines :: ParseEventRecord(l).Some?
  }

  /** Everything before c parses, and max is the greatest sequence number in it. */
  ghost predicate Scanned(lines: seq<string>, component: string, instance: Option<int>, max: nat) {
    AllParse(lines) && max == MaxSeq(Records(lines), component, instance)
  }

  function MaxAfter(max: nat, r: EventRecord, component: string, instance: Option<int>): nat {
    if r.component == component && r.instance == instance && r.seqNo > max then r.seqNo else max
  }

  lemma ScanStep(lines: seq<string>, raw: string, component: string, instance: Option<int>, max: nat, r: EventRecord)
    requires Scanned(lines, component, instance, max) && ParseEventRecord(raw) == Some(r)
    ensures Scanned(lines + [raw], component, instance, MaxAfter(max, r, component, instance))
  {
    RecordsSnoc(lines, raw);
    MaxSnoc(Records(lines), r, component, instance);
  }

  lemma ScanFails(file: string, c: nat, lines: seq<string>, raw: string)
    requires c <= |file| && Split(file[..c]).lines == lines + [raw] && ParseEventRecord(raw).None?
    ensures !AllParse(Split(file).lines)
  {
    LinesGrow(file, c);
    assert (lines + [raw])[|lines|] == raw;
    assert Split(file).lines[|lines|] == raw;
    assert raw in Split(file).lines;
  }

  /** One record of the scan; more is false at the end and at a malformed line. */
  method ScanOne(scan: EventLogReader, file: string, component: string, instance: Option<int>, max: nat)
    returns (more: bool, ok: bool, max': nat)
    requires scan.Synced(file) && Scanned(Split(file[..scan.Cursor()]).lines, component, instance, max)
    modifies scan
    ensures more ==>
              && scan.Synced(file) && scan.Cursor() > old(scan.Cursor())
              && Scanned(Split(file[..scan.Cursor()]).lines, component, instance, max')
    ensures !more ==> (ok <==> AllParse(Split(file).lines))
    ensures !more && ok ==> max' == MaxSeq(Records(Split(file).lines), component, instance)
  {
    ghost var lines := Split(file[..scan.Cursor()]).lines;
    var status, record, raw := scan.ReadNext(file, []);
    if status.End? || status.Incomplete? {
      assert scan.line == file[scan.Cursor()..];
      RestIsPartial(file, scan.Cursor(), scan.line);
      return false, true, max;
    }
    if status.Malformed? {
      ScanFails(file, scan.Cursor(), lines, raw);
      return false, false, 0;
    }
    ScanStep(lines, raw, component, instance, max, record.value);
    return true, true, MaxAfter(max, record.value, component, instance);
  }

  /** The scan that a writer starts with. */
  method ScanForMax(file: string, component: string, instance: Option<int>) returns (ok: bool, max: nat)
    ensures ok <==> AllParse(Split(file).lines)
    ensures ok ==> max == MaxSeq(Records(Split(file).lines), component, instance)
  {
    var scan := new EventLogReader();
    max := 0;
    assert file[..0] == [];
    while true
      invariant scan.Synced(file) && fresh(scan)
      invariant Scanned(Split(file[..scan.Cursor()]).lines, component, instance, max)
      decreases |file| - scan.Cursor()
    {
      var more;
      more, ok, max := ScanOne(scan, file, component, instance, max);
      if !more {
        return;
      }
    }
  }

  /** What the one write call puts into the file: the whole record, or some first bytes of it (0 if it fails). */
  datatype Written = Whole | Only(bytes: nat)

  /** What a caller asks to append, at what time, and the outcomes of the write and of the durability barrier. */
  datatype Request = Request(level: LogLevel, event: string, extra: string, ts: nat, written: Written, synced: bool) {
    function Line(component: string, instance: Option<int>, seqNo: nat): string {
      FormatRecord(ts, level, component, seqNo, event, instance, extra)
    }

    /** The arguments are in order and the record fits. */
    predicate Accepted(component: string, instance: Option<int>, seqNo: nat) {
      IsValidComponent(event) && AcceptedExtra(extra) && |Line(component, instance, seqNo)| + 1 < MAX_RECORD_BYTES
    }

    predicate Writes(component: string, instance: Option<int>, seqNo: nat) {
      Accepted(component, instance, seqNo) && written.Whole?
    }

    /** The bytes that reach the file; a write cut short misses at least the newline. */
    function Bytes(component: string, instance: Option<int>, seqNo: nat): string {
      var line := Line(component, instance, seqNo);
      if !Accepted(component, instance, seqNo) then []
      else if written.Whole? then line + "\n"
      else if written.bytes < |line| then line[..written.bytes]
      else line
    }

    /** Warnings and errors wait for the barrier. */
    predicate Acknowledged() {
      level == Info || synced
    }
  }

  class EventLogWriter {
    var isOpen: bool
    var component: string
    var instance: Option<int>
    var nextSeq: nat

    constructor ()
      ensures !isOpen
    {
      isOpen, component, instance, nextSeq := false, [], None, 1;
    }

    /**
     Recovers the next sequence number by scanning the whole log; a torn last line is tolerated, any
     other malformed line refuses.
     */
    method Open(file: string, component: string, instance: Option<int>) returns (ok: bool)
      modifies this
      ensures ok <==> IsValidComponent(component) && AllParse(Split(file).lines)
      ensures ok <==> isOpen
      ensures ok ==> this.component == component && this.instance == instance
                     && nextSeq == MaxSeq(Records(Split(file).lines), component, instance) + 1
    {
      isOpen := false;
      if !IsValidComponent(component) {
        return false;
      }
      var max;
      ok, max := ScanForMax(file, component, instance);
      if !ok {
        return false;
      }
      isOpen := true;
      this.component, this.instance, nextSeq := component, instance, max + 1;
    }

    /**
     One record appended in one write. A record whose durability barrier fails is in the log all the same,
     and its sequence number will be used again; a write cut short leaves its bytes behind.
     */
    method Append(file: string, q: Request) returns (ok: bool, file': string)
      requires nextSeq > 0
      modifies this`nextSeq
      ensures file' == (if isOpen then file + q.Bytes(component, instance, old(nextSeq)) else file)
      ensures ok <==> isOpen && q.Writes(component, instance, old(nextSeq)) && q.Acknowledged()
      ensures ok <==>
                && isOpen && IsValidComponent(q.event)
                && '\n' !in q.extra && '}' !in q.extra && (q.extra == [] || q.extra[0] == '"')
                && |FormatRecord(q.ts, q.level, component, old(nextSeq), q.event, instance, q.extra) + "\n"| < 4096
                && q.written.Whole? && (q.level.Warn? || q.level.Error? ==> q.synced)
      ensures nextSeq == (if ok then old(nextSeq) + 1 else old(nextSeq))
    {
      file' := file;
      assert file + [] == file;
      if !isOpen || !IsValidComponent(q.event) {
        return false, file';
      }
      if '\n' in q.extra || '}' in q.extra {
        return false, file';
      }
      if q.extra != [] && q.extra[0] != QUOTE {
        return false, file';
      }
      var line := FormatRecord(q.ts, q.level, component, nextSeq, q.event, instance, q.extra) + "\n";
      if |line| >= MAX_RECORD_BYTES {
        return false, file';
      }
      if q.written.Only? {
        var count := if q.written.bytes < |line| then q.written.bytes else |line| - 1;
        file' := file + line[..count];
        return false, file';
      }
      file' := file + line;
      if q.level != Info && !q.synced {
        return false, file';
      }
      nextSeq := nextSeq + 1;
      return true, file';
    }
  }

  /** The rest of a file without a newline adds no line. */
  lemma RestIsPartial(file: string, c: nat, rest: string)
    requires c <= |file| && rest == file[c..] && '\n' !in rest
    ensures Split(file).lines == Split(file[..c]).lines
  {
    assert file == file[..c] + rest;
    SplitPlain(file[..c], rest);
  }

  lemma {:induction false} LinesGrow(file: string, c: nat)
    requires c <= |file|
    ensures Split(file[..c]).lines <= Split(file).lines
    decreases |file|
  {
    if c == |file| {
      assert file[..c] == file;
    } else {
      var front := file[..|file| - 1];
      assert front[..c] == file[..c];
      LinesGrow(front, c);
    }
  }
}
