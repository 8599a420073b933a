/** The text of event-log records, and which lines of that text are accepted, whoever wrote them. */
module LogText {
  import opened Options
  import opened LogFormat

  /** The text of a record: the fields in order, with the last ones and the closing brace in tail. */
  function Line(schema: int, ts: int, level: string, component: string, seqNo: int, event: string,
                tail: string): string
  {
    "{\"schema\":" + (Decimal(schema)
    + (",\"ts\":" + (Decimal(ts) + LineFromLevel(level, component, seqNo, event, tail))))
  }

  function LineFromLevel(level: string, component: string, seqNo: int, event: string, tail: string): string {
    ",\"level\":\"" + (level + ("\",\"component\":\"" + (component + LineFromSeq(seqNo, event, tail))))
  }

  function LineFromSeq(seqNo: int, event: string, tail: string): string {
    "\",\"seq\":" + (Decimal(seqNo) + (",\"event\":\"" + (event + ("\"" + tail))))
  }

  /** The optional fields and the closing brace. */
  function Tail(instance: Option<int>, extra: string): string {
    (if instance.Some? then ",\"instance\":" + Decimal(instance.value) else "")
    + (if extra == "" then "}" else "," + extra + "}")
  }

  /** The same line field by field. */
  function SeqFields(seqNo: int, event: string, tail: string): string {
    Key("seq", Decimal(seqNo) + ("," + Key("event", Text(event, tail))))
  }

  function LevelFields(level: string, component: string, seqNo: int, event: string, tail: string): string {
    Key("level", Text(level, "," + Key("component", Text(component, "," + SeqFields(seqNo, event, tail)))))
  }

  function TsFields(ts: int, level: string, component: string, seqNo: int, event: string, tail: string): string {
    Key("ts", Decimal(ts) + ("," + LevelFields(level, component, seqNo, event, tail)))
  }

  function LineFields(schema: int, ts: int, level: string, component: string, seqNo: int, event: string,
                      tail: string): string
  {
    "{" + Key("schema", Decimal(schema) + ("," + TsFields(ts, level, component, seqNo, event, tail)))
  }

  lemma KeyText(name: string, value: string, rest: string)
    ensures Key(name, Text(value, rest)) == "\"" + name + "\":\"" + (value + ("\"" + rest))
  {
  }

  lemma SeqText(seqNo: int, event: string, tail: string)
    ensures "\"" + ("," + SeqFields(seqNo, event, tail)) == LineFromSeq(seqNo, event, tail)
  {
    var d, e := Decimal(seqNo), Key("event", Text(event, tail));
    KeyText("event", event, tail);
    assert "," + e == ",\"event\":\"" + (event + ("\"" + tail));
    assert "\"" + ("," + ("\"seq\":" + (d + ("," + e)))) == "\",\"seq\":" + (d + ("," + e));
    assert "\"" + "seq" + "\":" == "\"seq\":";
  }

  lemma LevelText(level: string, component: string, seqNo: int, event: string, tail: string)
    ensures "," + LevelFields(level, component, seqNo, event, tail) ==
            LineFromLevel(level, component, seqNo, event, tail)
  {
    var s := "," + SeqFields(seqNo, event, tail);
    SeqText(seqNo, event, tail);
    var c := Key("component", Text(component, s));
    KeyText("component", component, s);
    assert "\"" + ("," + c) == "\",\"component\":\"" + (component + ("\"" + s));
    KeyText("level", level, "," + c);
    assert "," + ("\"level\":\"" + (level + ("\"" + ("," + c)))) == ",\"level\":\"" + (level + ("\"" + ("," + c)));
  }

  lemma LineText(schema: int, ts: int, level: string, component: string, seqNo: int, event: string, tail: string)
    ensures LineFields(schema, ts, level, component, seqNo, event, tail)
            == Line(schema, ts, level, component, seqNo, event, tail)
  {
    var l := LevelFields(level, component, seqNo, event, tail);
    LevelText(level, component, seqNo, event, tail);
    var t := Decimal(ts) + ("," + l);
    assert "," + Key("ts", t) == ",\"ts\":" + t;
    var r := Decimal(schema) + ("," + Key("ts", t));
    assert "{" + Key("schema", r) == "{\"schema\":" + r;
  }

  lemma EndingText(instance: Option<int>, extra: string)
    ensures Ending(instance, extra) == Tail(instance, extra)
  {
    if instance.Some? {
      var d, e := Decimal(instance.value), if extra == "" then "}" else "," + extra + "}";
      assert "," + Key("instance", d + e) == ",\"instance\":" + d + e;
    }
  }

  lemma PrintedNames(level: LogLevel, name: string)
    requires name == match level case Info => "info" case Warn => "warn" case Error => "error"
    ensures LevelName(level) == name && Decimal(1) == "1"
  {
  }

  /** What append writes, character by character, up to the newline. */
  lemma PrintedText(ts: nat, level: LogLevel, component: string, seqNo: nat, event: string, instance: Option<int>,
                    extra: string, name: string)
    requires name == match level case Info => "info" case Warn => "warn" case Error => "error"
    requires NUL !in extra
    ensures FormatRecord(ts, level, component, seqNo, event, instance, extra)
            == Line(1, ts, name, component, seqNo, event, Tail(instance, extra))
  {
    EndingText(instance, extra);
    PrintedNames(level, name);
    var t := FromTs(ts, level, component, seqNo, event, instance, extra);
    assert "1," + t == "1" + ("," + t);
    LineText(1, ts, name, component, seqNo, event, Tail(instance, extra));
  }

  /** The characters of component and event names, by their codes: digits, letters, and three others. */
  lemma ComponentCodes(c: char)
    ensures IsComponentChar(c) <==>
            var n := c as int; 48 <= n <= 57 || 65 <= n <= 90 || 97 <= n <= 122 || n in {45, 46, 95}
  {
  }

  // ----- any line of that shape -----

  lemma SkipToTs(schema: int, rest: string, key: string, name: string)
    requires SearchKey(key, name) && name != "schema"
    ensures After("{" + Key("schema", Decimal(schema) + ("," + rest)), key) == After(rest, key)
  {
    SkipPlain("{", Key("schema", Decimal(schema) + ("," + rest)), key, name);
    SkipNumberField("schema", schema, rest, key, name);
  }

  lemma SkipToComponent(ts: int, level: string, rest: string, key: string, name: string)
    requires SearchKey(key, name) && name !in {"ts", "level"} && NoQuote(level)
    ensures After(Key("ts", Decimal(ts) + ("," + Key("level", Text(level, "," + rest)))), key)
            == After(rest, key)
  {
    SkipNumberField("ts", ts, Key("level", Text(level, "," + rest)), key, name);
    SkipTextField("level", level, rest, key, name);
  }

  lemma FindNumber(name: string, n: int, rest: string)
    ensures ExtractNumber(Key(name, Decimal(n) + ("," + rest)), NumberKey(name)) == if Fits(n) then Some(n) else None
  {
    NumberHere(name, Decimal(n) + ("," + rest));
    NumberRoundTrip(n, "," + rest);
  }

  lemma FindFirst(schema: int, ts: int, level: string, component: string, seqNo: int, event: string)
    requires NoQuote(level)
    ensures var line := LineFields(schema, ts, level, component, seqNo, event, "}");
      && ExtractNumber(line, NumberKey("schema")) == (if Fits(schema) then Some(schema) else None)
      && ExtractNumber(line, NumberKey("ts")) == (if Fits(ts) then Some(ts) else None)
      && ExtractString(line, TextKey("level")) == Some(level)
  {
    FieldNames();
    var t, l := TsFields(ts, level, component, seqNo, event, "}"), LevelFields(level, component, seqNo, event, "}");
    SkipPlain("{", Key("schema", Decimal(schema) + ("," + t)), NumberKey("schema"), "schema");
    FindNumber("schema", schema, t);
    SkipToTs(schema, t, NumberKey("ts"), "ts");
    FindNumber("ts", ts, l);
    SkipToTs(schema, t, TextKey("level"), "level");
    SkipNumberField("ts", ts, l, TextKey("level"), "level");
    TextHere("level", level, "," + Key("component", Text(component, "," + SeqFields(seqNo, event, "}"))));
  }

  /** Past timestamp and level. */
  lemma SkipFirst(schema: int, ts: int, level: string, component: string, seqNo: int, event: string,
                  key: string, name: string)
    requires NoQuote(level) && SearchKey(key, name) && name !in {"schema", "ts", "level"}
    ensures After(LineFields(schema, ts, level, component, seqNo, event, "}"), key) ==
            After(Key("component", Text(component, "," + SeqFields(seqNo, event, "}"))), key)
  {
    var c := Key("component", Text(component, "," + SeqFields(seqNo, event, "}")));
    SkipToTs(schema, TsFields(ts, level, component, seqNo, event, "}"), key, name);
    SkipToComponent(ts, level, c, key, name);
  }

  lemma FindRest(schema: int, ts: int, level: string, component: string, seqNo: int, event: string)
    requires NoQuote(level) && NoQuote(component) && NoQuote(event)
    ensures var line := LineFields(schema, ts, level, component, seqNo, event, "}");
      && ExtractString(line, TextKey("component")) == Some(component)
      && ExtractNumber(line, NumberKey("seq")) == (if Fits(seqNo) then Some(seqNo) else None)
      && ExtractString(line, TextKey("event")) == Some(event)
      && ExtractNumber(line, NumberKey("instance")) == None
  {
    FieldNames();
    var s, e := SeqFields(seqNo, event, "}"), Key("event", Text(event, "}"));
    SkipFirst(schema, ts, level, component, seqNo, event, TextKey("component"), "component");
    TextHere("component", component, "," + s);
    SkipFirst(schema, ts, level, component, seqNo, event, NumberKey("seq"), "seq");
    SkipTextField("component", component, s, NumberKey("seq"), "seq");
    FindNumber("seq", seqNo, e);
    SkipFirst(schema, ts, level, component, seqNo, event, TextKey("event"), "event");
    SkipTextField("component", component, s, TextKey("event"), "event");
    SkipNumberField("seq", seqNo, e, TextKey("event"), "event");
    TextHere("event", event, "}");
    SkipFirst(schema, ts, level, component, seqNo, event, NumberKey("instance"), "instance");
    SkipTextField("component", component, s, NumberKey("instance"), "instance");
    SkipNumberField("seq", seqNo, e, NumberKey("instance"), "instance");
    NoInstance(event);
  }

  lemma NoInstance(event: string)
    requires NoQuote(event)
    ensures After(Key("event", Text(event, "}")), NumberKey("instance")) == None
  {
    FieldNames();
    SkipKey("event", Text(event, "}"), NumberKey("instance"), "instance");
    SkipText(event, "}", NumberKey("instance"), "instance");
    SkipPlain("}", "", NumberKey("instance"), "instance");
  }

  predicate Int64(v: int) {
    -0x8000_0000_0000_0000 <= v < 0x8000_0000_0000_0000
  }

  lemma LineEnds(schema: int, ts: int, level: string, component: string, seqNo: int, event: string)
    ensures var line := LineFields(schema, ts, level, component, seqNo, event, "}");
      Closed(line) && line[0] == '{'
  {
    var e := Key("event", Text(event, "}"));
    TextCloses(event, "}");
    KeyCloses("event", Text(event, "}"));
    NumberFieldCloses("seq", seqNo, e);
    FieldCloses("component", component, SeqFields(seqNo, event, "}"));
    FieldCloses("level", level, Key("component", Text(component, "," + SeqFields(seqNo, event, "}"))));
    NumberFieldCloses("ts", ts, LevelFields(level, component, seqNo, event, "}"));
    NumberFieldCloses("schema", schema, TsFields(ts, level, component, seqNo, event, "}"));
  }

  /**
   A line of that shape, whoever wrote it, is accepted exactly if its schema is 1, its level is one of the
   three, its numbers fit in 64 signed bits and the sequence number is not negative. A negative timestamp
   is taken for the unsigned number with the same bits.
   */
  lemma ForeignLine(schema: int, ts: int, level: string, component: string, seqNo: int, event: string)
    requires NoQuote(level) && NoQuote(component) && NoQuote(event)
    ensures var line := Line(schema, ts, level, component, seqNo, event, "}");
      ParseEventRecord(line) ==
      if schema == 1 && Int64(ts) && level in {"info", "warn", "error"} && Int64(seqNo) && seqNo >= 0 then
        Some(EventRecord(if ts < 0 then ts + 0x1_0000_0000_0000_0000 else ts,
                         if level == "info" then Info else if level == "warn" then Warn else Error,
                         component, seqNo, event, None, line))
      else None
  {
    LineText(schema, ts, level, component, seqNo, event, "}");
    LineEnds(schema, ts, level, component, seqNo, event);
    FindFirst(schema, ts, level, component, seqNo, event);
    FindRest(schema, ts, level, component, seqNo, event);
  }
}
