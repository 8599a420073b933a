/** Reading an event log in chunks, and accounting for the continuity of each key's sequence numbers. */
module LogReader {
  import opened Options
  import opened LogFormat

  const CHUNK: nat := 4096

  // ----- the log as lines -----

  /** The complete, non-blank lines of a text and what follows its last newline. */
  datatype Scan = Scan(lines: seq<string>, partial: string)

  function Split(text: string): Scan {
    if text == [] then Scan([], [])
    else
      var s, c := Split(text[..|text| - 1]), text[|text| - 1];
      if c != '\n' then s.(partial := s.partial + [c])
      else if s.partial == [] then s
      else Scan(s.lines + [s.partial], [])
  }

  lemma SplitSnoc(text: string, c: char)
    ensures Split(text + [c]) ==
            var s := Split(text);
            if c != '\n' then s.(partial := s.partial + [c])
            else if s.partial == [] then s
            else Scan(s.lines + [s.partial], [])
  {
    assert (text + [c])[..|text|] == text;
  }

  lemma Reassociate(a: string, b: string, c: char)
    ensures a + (b + [c]) == (a + b) + [c]
  {
  }

  lemma SplitOnePlain(text: string, s: Scan, more: string, c: char)
    requires Split(text + more) == Scan(s.lines, s.partial + more) && c != '\n'
    ensures Split(text + (more + [c])) == Scan(s.lines, s.partial + (more + [c]))
  {
    Reassociate(text, more, c);
    Reassociate(s.partial, more, c);
    SplitSnoc(text + more, c);
  }

  lemma {:induction false} SplitPlain(text: string, more: string)
    requires '\n' !in more
    ensures Split(text + more) == Split(text).(partial := Split(text).partial + more)
    decreases |more|
  {
    if more == [] {
      assert text + more == text;
    } else {
      var front, c := more[..|more| - 1], more[|more| - 1];
      assert c in more && front + [c] == more;
      SplitPlain(text, front);
      SplitOnePlain(text, Split(text), front, c);
    }
  }

  /** A line appended to a text that ends at a line boundary. */
  lemma SplitLine(text: string, line: string)
    requires '\n' !in line
    ensures Split(text + line + "\n") ==
            var s := Split(text); Scan(if s.partial + line == [] then s.lines else s.lines + [s.partial + line], [])
  {
    SplitPlain(text, line);
    SplitSnoc(text + line, '\n');
  }

  /** Lines, each with its newline. */
  function Joined(lines: seq<string>): string {
    if lines == [] then "" else Joined(lines[..|lines| - 1]) + lines[|lines| - 1] + "\n"
  }

  /** Lines that are not blank are found again in their joined text, with whatever follows the last newline. */
  lemma {:induction false} SplitJoined(lines: seq<string>, partial: string)
    requires '\n' !in partial && forall l | l in lines :: l != [] && '\n' !in l
    ensures Split(Joined(lines) + partial) == Scan(lines, partial)
    decreases |lines|
  {
    if lines == [] {
      assert Joined(lines) + partial == [] + partial;
    } else {
      var front, last := lines[..|lines| - 1], lines[|lines| - 1];
      SplitJoined(front, []);
      assert Joined(front) + [] == Joined(front);
      JoinedLine(Joined(front), front, last);
      assert front + [last] == lines;
    }
    SplitPlain(Joined(lines), partial);
    assert [] + partial == partial;
  }

  lemma JoinedLine(text: string, lines: seq<string>, line: string)
    requires Split(text) == Scan(lines, []) && line != [] && '\n' !in line
    ensures Split(text + line + "\n") == Scan(lines + [line], [])
  {
    SplitLine(text, line);
    assert [] + line == line;
  }

  /** The records among the lines; a malformed line yields none. */
  function Records(lines: seq<string>): seq<EventRecord> {
    if lines == [] then []
    else
      var r := ParseEventRecord(lines[|lines| - 1]);
      Records(lines[..|lines| - 1]) + (if r.Some? then [r.value] else [])
  }

  lemma RecordsSnoc(lines: seq<string>, line: string)
    ensures Records(lines + [line]) ==
            Records(lines) + (var r := ParseEventRecord(line); if r.Some? then [r.value] else [])
  {
    assert (lines + [line])[..|lines|] == lines;
  }

  // ----- continuity -----

  datatype SequenceState = SequenceState(expectedSeq: nat, gaps: nat, missed: nat)

  /** The key of a record's sequence: its component, and its instance if it has one. */
  function StateKey(component: string, instance: Option<int>): string {
    if instance.Some? then component + "/" + Decimal(instance.value) else component
  }

  function KeyOf(r: EventRecord): string {
    StateKey(r.component, r.instance)
  }

  function StateFor(states: map<string, SequenceState>, key: string): SequenceState {
    if key in states then states[key] else SequenceState(1, 0, 0)
  }

  /** One record of a key: on time, a jump ahead, or out of order. */
  function Observe(s: SequenceState, seqNo: nat): SequenceState {
    if seqNo < s.expectedSeq then s.(gaps := s.gaps + 1)
    else if seqNo == s.expectedSeq then s.(expectedSeq := seqNo + 1)
    else SequenceState(seqNo + 1, s.gaps + 1, s.missed + (seqNo - s.expectedSeq))
  }

  function Continuity(rs: seq<EventRecord>): map<string, SequenceState> {
    if rs == [] then map[]
    else
      var states, r := Continuity(rs[..|rs| - 1]), rs[|rs| - 1];
      states[KeyOf(r) := Observe(StateFor(states, KeyOf(r)), r.seqNo)]
  }

  lemma ContinuitySnoc(rs: seq<EventRecord>, r: EventRecord)
    ensures Continuity(rs + [r]) == Continuity(rs)[KeyOf(r) := Observe(StateFor(Continuity(rs), KeyOf(r)), r.seqNo)]
  {
    assert (rs + [r])[..|rs|] == rs;
  }

  /** The bytes of the lines that hold a record, newlines included. */
  function RecordBytes(lines: seq<string>): nat {
    if lines == [] then 0
    else
      RecordBytes(lines[..|lines| - 1])
      + (if ParseEventRecord(lines[|lines| - 1]).Some? then |lines[|lines| - 1]| + 1 else 0)
  }

  lemma RecordBytesSnoc(lines: seq<string>, line: string)
    ensures RecordBytes(lines + [line]) == RecordBytes(lines) + (if ParseEventRecord(line).Some? then |line| + 1 else 0)
  {
    assert (lines + [line])[..|lines|] == lines;
  }

  /** The bytes that yield no record: the newlines of blank lines, and malformed lines with theirs. */
  function SkippedBytes(text: string): nat {
    if text == [] then 0
    else
      var front, c := text[..|text| - 1], text[|text| - 1];
      var line := Split(front).partial;
      SkippedBytes(front)
      + (if c != '\n' then 0 else if line == [] then 1 else if ParseEventRecord(line).Some? then 0 else |line| + 1)
  }

  /** Every byte belongs to a record, is skipped, or follows the last newline. */
  lemma {:induction false} Measure(text: string)
    ensures |text| == RecordBytes(Split(text).lines) + SkippedBytes(text) + |Split(text).partial|
    decreases |text|
  {
    if text != [] {
      var front := text[..|text| - 1];
      Measure(front);
      if text[|text| - 1] == '\n' && Split(front).partial != [] {
        RecordBytesSnoc(Split(front).lines, Split(front).partial);
      }
    }
  }

  // ----- the reader -----

  datatype ReadStatus = Ok | End | Incomplete | Malformed

  /** The position of the first newline. */
  function FindNewline(s: string): (r: Option<nat>)
    ensures r.Some? ==> r.value < |s| && s[r.value] == '\n' && '\n' !in s[..r.value]
    ensures r.None? ==> '\n' !in s
  {
    if s == [] then None
    else if s[0] == '\n' then Some(0)
    else
      var rest := FindNewline(s[1..]);
      if rest.None? then None
      else
        assert s[..rest.value + 1] == [s[0]] + s[1..][..rest.value];
        Some(rest.value + 1)
  }

  /** What a reader's results may depend on: the lines of the text before its cursor, and nothing else. */
  ghost predicate FollowsText(text: string, states: map<string, SequenceState>, watermark: nat) {
    && Split(text).partial == []
    && states == Continuity(Records(Split(text).lines))
    && watermark == RecordBytes(Split(text).lines)
  }

  /** What consuming one line does to the states and to the watermark. */
  function StatesAfter(states: map<string, SequenceState>, raw: string): map<string, SequenceState> {
    var r := ParseEventRecord(raw);
    if raw == [] || r.None? then states
    else states[KeyOf(r.value) := Observe(StateFor(states, KeyOf(r.value)), r.value.seqNo)]
  }

  function WatermarkAfter(watermark: nat, raw: string): nat {
    if raw == [] || ParseEventRecord(raw).None? then watermark else watermark + |raw| + 1
  }

  function LinesAfter(lines: seq<string>, raw: string): seq<string> {
    if raw == [] then lines else lines + [raw]
  }

  lemma SplitAfter(text: string, raw: string)
    requires Split(text).partial == [] && '\n' !in raw
    ensures Split(text + raw + "\n") == Scan(LinesAfter(Split(text).lines, raw), [])
  {
    SplitLine(text, raw);
    assert [] + raw == raw;
  }

  lemma RecordsAfter(lines: seq<string>, raw: string)
    ensures Continuity(Records(LinesAfter(lines, raw))) == StatesAfter(Continuity(Records(lines)), raw)
    ensures RecordBytes(LinesAfter(lines, raw)) == WatermarkAfter(RecordBytes(lines), raw)
  {
    if raw != [] {
      var r := ParseEventRecord(raw);
      RecordsSnoc(lines, raw);
      RecordBytesSnoc(lines, raw);
      if r.Some? {
        ContinuitySnoc(Records(lines), r.value);
      } else {
        assert Records(lines) + [] == Records(lines);
      }
    }
  }

  lemma LineFollows(text: string, raw: string, states: map<string, SequenceState>, watermark: nat)
    requires FollowsText(text, states, watermark) && '\n' !in raw
    ensures FollowsText(text + raw + "\n", StatesAfter(states, raw), WatermarkAfter(watermark, raw))
    ensures Split(text + raw + "\n").lines == LinesAfter(Split(text).lines, raw)
  {
    SplitAfter(text, raw);
    RecordsAfter(Split(text).lines, raw);
  }

  /** The file up to the end of the line that the buffer starts with. */
  lemma NextCut(file: string, c: nat, pos: nat, line: string, nl: nat)
    requires c <= pos <= |file| && line == file[c..pos] && nl < |line| && line[nl] == '\n'
    ensures file[..c + nl + 1] == file[..c] + line[..nl] + "\n"
    ensures line[nl + 1..] == file[c + nl + 1..pos]
  {
    assert file[c + nl] == '\n' && file[c..c + nl] == line[..nl];
  }

  lemma TakeKeeps(file: string, c: nat, pos: nat, line: string, nl: nat, states: map<string, SequenceState>,
                  watermark: nat)
    requires c <= pos <= |file| && line == file[c..pos] && nl < |line| && line[nl] == '\n' && '\n' !in line[..nl]
    requires FollowsText(file[..c], states, watermark)
    ensures FollowsText(file[..c + nl + 1], StatesAfter(states, line[..nl]), WatermarkAfter(watermark, line[..nl]))
    ensures Split(file[..c + nl + 1]).lines == LinesAfter(Split(file[..c]).lines, line[..nl])
    ensures line[nl + 1..] == file[c + nl + 1..pos] && |line[nl + 1..]| == pos - (c + nl + 1)
  {
    NextCut(file, c, pos, line, nl);
    LineFollows(file[..c], line[..nl], states, watermark);
  }

  class EventLogReader {
    var pos: nat          // the file offset
    var line: string      // bytes read and not yet consumed
    var watermark: nat
    var states: map<string, SequenceState>

    constructor ()
      ensures pos == 0 && line == [] && watermark == 0 && states == map[]
      ensures forall file: string :: Synced(file)
    {
      pos, line, watermark, states := 0, [], 0, map[];
    }

    /** The buffer is the stretch of the file before the offset. */
    ghost predicate Buffered(file: string)
      reads this
    {
      |line| <= pos <= |file| && line == file[pos - |line|..pos]
    }

    /** The first byte not yet consumed. */
    ghost function Cursor(): int
      reads this
    {
      pos - |line|
    }

    /** States and watermark are those of the consumed part of the file, however it was read. */
    ghost predicate Synced(file: string)
      reads this
    {
      Buffered(file) && FollowsText(file[..Cursor()], states, watermark)
    }

    /** Consumes the buffered line that ends at nl. */
    method TakeLine(ghost file: string, nl: nat) returns (raw: string, record: Option<EventRecord>)
      requires Synced(file) && nl < |line| && line[nl] == '\n' && '\n' !in line[..nl]
      modifies this
      ensures Synced(file) && Cursor() == old(Cursor()) + nl + 1 && pos == old(pos)
      ensures raw == old(line[..nl]) && record == (if raw == [] then None else ParseEventRecord(raw))
      ensures Split(file[..Cursor()]).lines == LinesAfter(old(Split(file[..Cursor()]).lines), raw)
      ensures raw == [] ==> states == old(states)
    {
      TakeKeeps(file, Cursor(), pos, line, nl, states, watermark);
      raw := line[..nl];
      line := line[nl + 1..];
      record := Record(raw);
    }

    /** The accounting of one line. */
    method Record(raw: string) returns (record: Option<EventRecord>)
      modifies this`watermark, this`states
      ensures record == (if raw == [] then None else ParseEventRecord(raw))
      ensures states == StatesAfter(old(states), raw) && watermark == WatermarkAfter(old(watermark), raw)
    {
      record := None;
      if raw != [] {
        record := ParseEventRecord(raw);
        if record.Some? {
          watermark := watermark + |raw| + 1;
          var key := KeyOf(record.value);
          states := states[key := Observe(StateFor(states, key), record.value.seqNo)];
        }
      }
    }

    /** Appends what one read returns; reading nothing means the end of the file, for now. */
    method ReadChunk(file: string, size: nat) returns (n: nat)
      requires Synced(file)
      modifies this`pos, this`line
      ensures Synced(file) && Cursor() == old(Cursor()) && pos == old(pos) + n && states == old(states)
      ensures n <= size && (n < size && n < CHUNK ==> pos == |file|)
    {
      n := if size > CHUNK then CHUNK else size;
      if n > |file| - pos {
        n := |file| - pos;
      }
      var chunk := file[pos..pos + n];
      line := line + chunk;
      pos := pos + n;
    }

    /**
     The next record. sizes gives the size of each read in turn (0: nothing there yet); when it runs out,
     reads return as much as fits. Blank lines are passed over. The result is the next line of the file
     after what was consumed, whatever the sizes were; End and Incomplete mean that no further complete
     line has been read, and leave everything but the buffer as it was.
     */
    method ReadNext(file: string, sizes: seq<nat>)
      returns (status: ReadStatus, record: Option<EventRecord>, ghost raw: string)
      requires Synced(file)
      modifies this
      ensures Synced(file) && Cursor() >= old(Cursor())
      ensures status.Ok? || status.Malformed? ==>
                && raw != [] && record == ParseEventRecord(raw) && (status.Ok? <==> record.Some?)
                && Cursor() > old(Cursor())
                && Split(file[..Cursor()]).lines == old(Split(file[..Cursor()]).lines) + [raw]
      ensures status.End? || status.Incomplete? ==>
                && Split(file[..Cursor()]).lines == old(Split(file[..Cursor()]).lines) && record.None?
                && '\n' !in line && (status.Incomplete? <==> line != []) && states == old(states)
                && (0 !in sizes ==> pos == |file|)
    {
      var i := 0;
      raw := [];
      ghost var lines := Split(file[..Cursor()]).lines;
      while true
        invariant Synced(file) && Cursor() >= old(Cursor()) && states == old(states)
        invariant Split(file[..Cursor()]).lines == lines
        invariant i <= |sizes|
        decreases |sizes| - i, |file| - pos, |line|
      {
        var nl := FindNewline(line);
        if nl.Some? {
          var text;
          text, record := TakeLine(file, nl.value);
          if text == [] {
            continue;
          }
          return if record.Some? then Ok else Malformed, record, text;
        }
        var size := CHUNK;
        if i < |sizes| {
          size := sizes[i];
          i := i + 1;
        }
        var n := ReadChunk(file, size);
        if n == 0 {
          return if line != [] then Incomplete else End, None, [];
        }
      }
    }

    /**
     Repositions the scan; the continuity state is kept. Going to the watermark resumes exactly where the
     reader stood if everything consumed so far was records: it then returns no record twice and none less.
     */
    method Seek(offset: nat, ghost file: string)
      modifies this
      ensures pos == offset && line == [] && watermark == offset && states == old(states)
      ensures old(Synced(file)) && offset == old(watermark) ==>
                (Cursor() == old(Cursor()) <==> SkippedBytes(file[..old(Cursor())]) == 0)
      ensures old(Synced(file)) && offset == old(watermark) && SkippedBytes(file[..old(Cursor())]) == 0 ==> Synced(file)
    {
      if Synced(file) {
        Measure(file[..Cursor()]);
      }
      pos, line, watermark := offset, [], offset;
    }
  }

  lemma BlankStart()
    ensures Split("\n\n") == Scan([], [])
  {
    assert "\n\n"[..1] == "\n" && "\n"[..0] == "";
    assert Split("\n") == Scan([], []);
  }

  lemma LoneBrace()
    ensures Split("}\n").lines == ["}"] && ParseEventRecord("}").None?
  {
    SplitLine("", "}");
    assert "" + "}" + "\n" == "}\n" && "" + "}" == "}";
  }

  lemma LineThenNothing(line: string)
    requires ParseEventRecord(line).Some?
    ensures ("\n\n" + line + "\n")[|line| + 1..] == "}\n"
  {
    ParsedRaw(line);
  }

  /**
   Two blank lines before a record are enough: a reader that has consumed the whole file resumes, at its
   watermark, on the record's closing brace, and reports a malformed line where nothing is left to read.
   */
  lemma {:induction false} BlankLinesMislead(line: string)
    requires ParseEventRecord(line).Some? && '\n' !in line
    ensures var file := "\n\n" + line + "\n";
      && FollowsText(file, Continuity(Records([line])), |line| + 1)
      && SkippedBytes(file) == 2
      && file[|line| + 1..] == "}\n" && Split("}\n").lines == ["}"] && ParseEventRecord("}").None?
  {
    var file := "\n\n" + line + "\n";
    BlankStart();
    SplitAfter("\n\n", line);
    ParsedRaw(line);
    assert [] + [line] == [line];
    RecordBytesSnoc([], line);
    Measure(file);
    LineThenNothing(line);
    LoneBrace();
  }
}
