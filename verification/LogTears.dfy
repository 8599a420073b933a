/** A line that breaks off, with a whole line run on to it: which cuts the parser still accepts. */
module LogTears {
  import opened Options
  import opened LogFormat

  // ----- searching across a tear -----

  /** A search key has no brace, so it is found before the tear or in the line behind it, never across. */
  lemma {:induction false} AfterTear(s: string, t: string, key: string)
    requires key != [] && '{' !in key && t != [] && t[0] == '{'
    ensures After(s + t, key) ==
            match After(s, key)
            case Some(rest) => Some(rest + t)
            case None => After(t, key)
    decreases |s|
  {
    if s == [] {
      assert s + t == t;
    } else {
      assert (s + t)[1..] == s[1..] + t;
      AfterTear(s[1..], t, key);
      if |s| < |key| {
        assert (s + t)[|s|] == '{' && key[|s|] in key;
        assert After(s, key) == After(s[1..], key) == None;
      } else if key <= s {
        assert (s + t)[|key|..] == s[|key|..] + t;
      }
    }
  }

  /** Where a search for key ends. */
  function PastKey(line: string, key: string): nat
    requires After(line, key).Some? && |After(line, key).value| <= |line|
  {
    |line| - |After(line, key).value|
  }

  /** A first part of a line shows a key once it reaches past it. */
  lemma {:induction false} AfterPrefix(s: string, k: nat, key: string)
    requires key != [] && k <= |s| && After(s, key).Some?
    ensures |After(s, key).value| + |key| <= |s|
    ensures After(s[..k], key) ==
            if k >= PastKey(s, key) then Some(After(s, key).value[..k - PastKey(s, key)]) else None
    decreases |s|
  {
    if key <= s {
      if k >= |key| {
        assert s[..k][|key|..] == s[|key|..][..k - |key|];
      }
    } else {
      assert After(s, key) == After(s[1..], key);
      if k == 0 {
        AfterPrefix(s[1..], 0, key);
      } else {
        AfterPrefix(s[1..], k - 1, key);
        assert s[..k][1..] == s[1..][..k - 1];
      }
    }
  }

  // ----- values across a tear -----

  lemma {:induction false} QuoteAhead(x: string, t: string)
    requires UpToQuote(t).Some?
    ensures UpToQuote(x + t).Some?
    ensures NoQuote(x) ==> UpToQuote(x + t) == Some(x + UpToQuote(t).value)
    decreases |x|
  {
    if x == [] {
      assert x + t == t && x + UpToQuote(t).value == UpToQuote(t).value;
    } else {
      assert (x + t)[1..] == x[1..] + t && x[0] in x;
      QuoteAhead(x[1..], t);
      assert NoQuote(x) ==> [x[0]] + (x[1..] + UpToQuote(t).value) == x + UpToQuote(t).value;
    }
  }

  lemma {:induction false} PrefixValue(d: string, j: nat)
    requires AllDigits(d) && j <= |d|
    ensures AllDigits(d[..j]) && ValueOf(d[..j]) <= ValueOf(d)
    decreases |d|
  {
    if j < |d| {
      var front := d[..|d| - 1];
      PrefixValue(front, j);
      assert front[..j] == d[..j];
    } else {
      assert d[..j] == d;
    }
  }

  /** A printed number that breaks off after j characters. */
  lemma TornNumber(n: nat, more: string, j: nat, t: string)
    requires Fits(n) && t != [] && t[0] == '{' && j <= |Decimal(n) + ("," + more)|
    ensures var x := ParseNumber((Decimal(n) + ("," + more))[..j] + t);
      && (x.Some? <==> j > 0) && (x.Some? ==> 0 <= x.value)
      && (j >= |Decimal(n)| ==> x == Some(n))
  {
    var d, rest := Digits(n), Decimal(n) + ("," + more);
    DigitsValue(n);
    if j == 0 {
      assert rest[..j] + t == t;
    } else if j <= |d| {
      PrefixValue(d, j);
      assert rest[..j] == d[..j];
      RunOfDigits(d[..j], t);
      assert (d[..j] + t)[0] == d[0] && d[0] in d;
      if j == |d| {
        assert d[..j] == d;
      }
    } else {
      var behind := rest[|d|..j] + t;
      assert rest[..j] + t == d + behind;
      assert behind[0] == ',';
      NumberRoundTrip(n, behind);
    }
  }

  // ----- fields of a torn line -----

  /** A number field of a line that breaks off at k, with the line t run on to it. */
  lemma TornNumberField(line: string, key: string, n: nat, more: string, k: nat, t: string)
    requires key != [] && '{' !in key && k <= |line| && Fits(n)
    requires After(line, key) == Some(Decimal(n) + ("," + more))
    requires t != [] && t[0] == '{' && ExtractNumber(t, key).Some?
    ensures |After(line, key).value| <= |line|
    ensures var x := ExtractNumber(line[..k] + t, key);
      && (x.Some? <==> k != PastKey(line, key)) && (k >= PastKey(line, key) && x.Some? ==> x.value >= 0)
      && (k < PastKey(line, key) ==> x == ExtractNumber(t, key))
      && (k >= PastKey(line, key) + |Decimal(n)| ==> x == Some(n))
  {
    AfterPrefix(line, k, key);
    AfterTear(line[..k], t, key);
    if k >= PastKey(line, key) {
      TornNumber(n, more, k - PastKey(line, key), t);
    }
  }

  /** A text field is always found: what breaks off is closed by the next line's first quote. */
  lemma TornTextField(line: string, key: string, value: string, more: string, k: nat, t: string)
    requires key != [] && '{' !in key && k <= |line| && NoQuote(value)
    requires After(line, key) == Some(value + ("\"" + more))
    requires t != [] && t[0] == '{' && ExtractString(t, key).Some? && UpToQuote(t).Some?
    ensures |After(line, key).value| <= |line|
    ensures var x, p := ExtractString(line[..k] + t, key), PastKey(line, key);
      && x.Some? && (k < p ==> x == ExtractString(t, key)) && (k > p + |value| ==> x == Some(value))
      && (p <= k <= p + |value| ==> '{' in x.value)
  {
    AfterPrefix(line, k, key);
    AfterTear(line[..k], t, key);
    var p := PastKey(line, key);
    if k >= p {
      TornText(value, more, k - p, t);
    }
  }

  lemma TornText(value: string, more: string, j: nat, t: string)
    requires NoQuote(value) && j <= |value + ("\"" + more)| && t != [] && t[0] == '{' && UpToQuote(t).Some?
    ensures var x := UpToQuote((value + ("\"" + more))[..j] + t);
      x.Some? && (j > |value| ==> x == Some(value)) && (j <= |value| ==> '{' in x.value)
  {
    var rest := value + ("\"" + more);
    if j <= |value| {
      assert rest[..j] == value[..j];
      assert forall c | c in value[..j] :: c in value;
      QuoteAhead(value[..j], t);
      assert UpToQuote(t).value[0] == '{';
      assert (value[..j] + UpToQuote(t).value)[j] == '{';
    } else {
      var behind := rest[|value| + 1..j] + t;
      assert rest[..j] + t == value + ("\"" + behind);
      QuoteEnds(value, behind);
    }
  }

  // ----- which cuts spoil a line -----

  lemma TextFound(name: string, value: string, rest: string)
    ensures After(Key(name, Text(value, rest)), TextKey(name)) == Some(value + ("\"" + rest))
  {
    var s := Key(name, Text(value, rest));
    assert s == TextKey(name) + (value + ("\"" + rest));
    assert TextKey(name) <= s && s[|TextKey(name)|..] == value + ("\"" + rest);
  }

  /** What a search finds behind each key of a printed line. */
  lemma SchemaFound(rest: string)
    ensures After("{" + Key("schema", "1," + rest), NumberKey("schema")) == Some("1" + ("," + rest))
  {
    FieldNames();
    SkipPlain("{", Key("schema", "1," + rest), NumberKey("schema"), "schema");
    NumberHere("schema", "1," + rest);
    assert "1," + rest == "1" + ("," + rest);
  }

  lemma TsFound(ts: nat, rest: string)
    ensures After("{" + Key("schema", "1," + Key("ts", Decimal(ts) + ("," + rest))), NumberKey("ts")) ==
            Some(Decimal(ts) + ("," + rest))
  {
    FieldNames();
    SkipSchema(Key("ts", Decimal(ts) + ("," + rest)), NumberKey("ts"), "ts");
    NumberHere("ts", Decimal(ts) + ("," + rest));
  }

  lemma LevelFound(ts: nat, level: LogLevel, rest: string)
    ensures After("{" + Key("schema", "1," + Key("ts", Decimal(ts) + ("," +
                  Key("level", Text(LevelName(level), "," + rest))))), TextKey("level")) ==
            Some(LevelName(level) + ("\"" + ("," + rest)))
  {
    FieldNames();
    SkipTs(ts, Key("level", Text(LevelName(level), "," + rest)), TextKey("level"), "level");
    TextFound("level", LevelName(level), "," + rest);
  }

  lemma ComponentFound(ts: nat, level: LogLevel, component: string, rest: string)
    ensures After("{" + Key("schema", "1," + Key("ts", Decimal(ts) + ("," + Key("level", Text(LevelName(level), "," +
                  Key("component", Text(component, "," + rest))))))), TextKey("component")) ==
            Some(component + ("\"" + ("," + rest)))
  {
    FieldNames();
    var c := Key("component", Text(component, "," + rest));
    SkipTs(ts, Key("level", Text(LevelName(level), "," + c)), TextKey("component"), "component");
    SkipLevel(level, c, TextKey("component"), "component");
    TextFound("component", component, "," + rest);
  }

  lemma SeqFound(ts: nat, level: LogLevel, component: string, seqNo: nat, rest: string)
    requires IsValidComponent(component)
    ensures After("{" + Key("schema", "1," + Key("ts", Decimal(ts) + ("," + Key("level", Text(LevelName(level), "," +
                  Key("component", Text(component, "," + Key("seq", Decimal(seqNo) + ("," + rest))))))))),
                  NumberKey("seq")) ==
            Some(Decimal(seqNo) + ("," + rest))
  {
    FieldNames();
    var q := Key("seq", Decimal(seqNo) + ("," + rest));
    var c := Key("component", Text(component, "," + q));
    SkipTs(ts, Key("level", Text(LevelName(level), "," + c)), NumberKey("seq"), "seq");
    SkipLevel(level, c, NumberKey("seq"), "seq");
    SkipComponent(component, q, NumberKey("seq"), "seq");
    NumberHere("seq", Decimal(seqNo) + ("," + rest));
  }

  lemma EventFound(ts: nat, level: LogLevel, component: string, seqNo: nat, event: string, rest: string)
    requires IsValidComponent(component)
    ensures After("{" + Key("schema", "1," + Key("ts", Decimal(ts) + ("," + Key("level", Text(LevelName(level), "," +
                  Key("component", Text(component, "," + Key("seq", Decimal(seqNo) + ("," +
                  Key("event", Text(event, rest))))))))))), TextKey("event")) ==
            Some(event + ("\"" + rest))
  {
    FieldNames();
    SkipToEvent(ts, level, component, seqNo, Key("event", Text(event, rest)), TextKey("event"), "event");
    TextFound("event", event, rest);
  }

  /** What follows each key of a line. */
  datatype Rests = Rests(schema: string, ts: string, level: string, component: string, seqNo: string, event: string)

  predicate Found(line: string, n: nat, level: LogLevel, component: string, seqNo: nat, event: string, r: Rests) {
    && After(line, NumberKey("schema")) == Some(Decimal(1) + ("," + r.schema))
    && After(line, NumberKey("ts")) == Some(Decimal(n) + ("," + r.ts))
    && After(line, TextKey("level")) == Some(LevelName(level) + ("\"" + r.level))
    && After(line, TextKey("component")) == Some(component + ("\"" + r.component))
    && After(line, NumberKey("seq")) == Some(Decimal(seqNo) + ("," + r.seqNo))
    && After(line, TextKey("event")) == Some(event + ("\"" + r.event))
  }

  lemma KeysFound(ts: nat, level: LogLevel, component: string, seqNo: nat, event: string, instance: Option<int>,
                  extra: string)
    returns (r: Rests)
    requires IsValidComponent(component)
    ensures Found(FormatFields(ts, level, component, seqNo, event, instance, extra), ts, level, component, seqNo,
                  event, r)
  {
    var t := FromTs(ts, level, component, seqNo, event, instance, extra);
    var l := FromLevel(level, component, seqNo, event, instance, extra);
    var c := FromComponent(component, seqNo, event, instance, extra);
    var q := FromSeq(seqNo, event, instance, extra);
    var e := FromEvent(event, instance, extra);
    SchemaFound(t);
    TsFound(ts, l);
    LevelFound(ts, level, c);
    ComponentFound(ts, level, component, q);
    SeqFound(ts, level, component, seqNo, e);
    EventFound(ts, level, component, seqNo, event, Ending(instance, extra));
    assert Decimal(1) == "1";
    r := Rests(t, l, "," + c, "," + q, e, Ending(instance, extra));
  }

  /** The keys of a line are found, each within it. */
  predicate HasKeys(line: string) {
    && (forall key | key in {NumberKey("schema"), NumberKey("ts"), NumberKey("seq"), TextKey("level")} ::
          After(line, key).Some? && |After(line, key).value| <= |line|)
  }

  /** The cut falls directly behind one of the three number keys, or between the quotes of the level. */
  predicate Spoils(line: string, level: LogLevel, k: nat)
    requires HasKeys(line)
  {
    || k == PastKey(line, NumberKey("schema")) || k == PastKey(line, NumberKey("ts"))
    || k == PastKey(line, NumberKey("seq"))
    || PastKey(line, TextKey("level")) <= k <= PastKey(line, TextKey("level")) + |LevelName(level)|
  }

  lemma FoundKeys(line: string, ts: nat, level: LogLevel, component: string, seqNo: nat, event: string, r: Rests)
    requires Found(line, ts, level, component, seqNo, event, r)
    ensures HasKeys(line)
  {
    AfterPrefix(line, 0, NumberKey("schema"));
    AfterPrefix(line, 0, NumberKey("ts"));
    AfterPrefix(line, 0, NumberKey("seq"));
    AfterPrefix(line, 0, TextKey("level"));
  }

  /** What the parser asks of each field, one by one. */
  predicate FieldsFound(line: string) {
    && ExtractNumber(line, NumberKey("schema")) == Some(1) && ExtractNumber(line, NumberKey("ts")).Some?
    && ExtractString(line, TextKey("level")).Some?
    && LevelFromName(ExtractString(line, TextKey("level")).value).Some?
    && ExtractString(line, TextKey("component")).Some? && ExtractString(line, TextKey("event")).Some?
    && ExtractNumber(line, NumberKey("seq")).Some? && ExtractNumber(line, NumberKey("seq")).value >= 0
  }

  lemma ParsesExactly(line: string)
    ensures ParseEventRecord(line).Some? <==> Closed(line) && line[0] == '{' && FieldsFound(line)
  {
  }

  /** The number fields of the torn line are in order exactly if the cut is not directly behind one of their keys. */
  lemma TornNumbers(line: string, ts: nat, level: LogLevel, component: string, seqNo: nat, event: string, r: Rests,
                    k: nat, t: string)
    requires Found(line, ts, level, component, seqNo, event, r) && HasKeys(line) && k <= |line|
    requires Fits(ts) && Fits(seqNo) && t != [] && t[0] == '{' && FieldsFound(t)
    ensures (&& ExtractNumber(line[..k] + t, NumberKey("schema")) == Some(1)
             && ExtractNumber(line[..k] + t, NumberKey("ts")).Some?
             && ExtractNumber(line[..k] + t, NumberKey("seq")).Some?)
            <==> k !in {PastKey(line, NumberKey("schema")), PastKey(line, NumberKey("ts")),
                        PastKey(line, NumberKey("seq"))}
    ensures ExtractNumber(line[..k] + t, NumberKey("seq")).Some? ==>
              ExtractNumber(line[..k] + t, NumberKey("seq")).value >= 0
  {
    KeysPlain("schema");
    KeysPlain("ts");
    KeysPlain("seq");
    TornNumberField(line, NumberKey("schema"), 1, r.schema, k, t);
    TornNumberField(line, NumberKey("ts"), ts, r.ts, k, t);
    TornNumberField(line, NumberKey("seq"), seqNo, r.seqNo, k, t);
    assert Decimal(1) == "1";
  }

  lemma LevelHasNoBrace(name: string)
    requires '{' in name
    ensures LevelFromName(name).None?
  {
  }

  lemma KeysPlain(name: string)
    requires '{' !in name
    ensures NumberKey(name) != [] && '{' !in NumberKey(name) && TextKey(name) != [] && '{' !in TextKey(name)
    ensures NumberKey(name)[0] == TextKey(name)[0] == QUOTE
  {
  }

  /** A level that breaks off within its quotes is none. */
  lemma TornLevel(line: string, level: LogLevel, more: string, k: nat, t: string)
    requires After(line, TextKey("level")) == Some(LevelName(level) + ("\"" + more)) && k <= |line|
    requires t != [] && t[0] == '{' && ExtractString(t, TextKey("level")).Some? && UpToQuote(t).Some?
    requires LevelFromName(ExtractString(t, TextKey("level")).value).Some?
    ensures |After(line, TextKey("level")).value| <= |line| && ExtractString(line[..k] + t, TextKey("level")).Some?
    ensures LevelFromName(ExtractString(line[..k] + t, TextKey("level")).value).Some?
            <==> !(PastKey(line, TextKey("level")) <= k <= PastKey(line, TextKey("level")) + |LevelName(level)|)
  {
    LevelNoQuote(level);
    KeysPlain("level");
    TornTextField(line, TextKey("level"), LevelName(level), more, k, t);
    var x := ExtractString(line[..k] + t, TextKey("level")).value;
    if '{' in x {
      LevelHasNoBrace(x);
    }
  }

  lemma TornTexts(line: string, component: string, event: string, r: Rests, k: nat, t: string)
    requires After(line, TextKey("component")) == Some(component + ("\"" + r.component))
    requires After(line, TextKey("event")) == Some(event + ("\"" + r.event))
    requires NoQuote(component) && NoQuote(event) && k <= |line| && t != [] && t[0] == '{' && UpToQuote(t).Some?
    requires ExtractString(t, TextKey("component")).Some? && ExtractString(t, TextKey("event")).Some?
    ensures ExtractString(line[..k] + t, TextKey("component")).Some?
    ensures ExtractString(line[..k] + t, TextKey("event")).Some?
  {
    KeysPlain("component");
    KeysPlain("event");
    TornTextField(line, TextKey("component"), component, r.component, k, t);
    TornTextField(line, TextKey("event"), event, r.event, k, t);
  }

  /** Where a key is found there is a quote. */
  lemma {:induction false} QuoteFound(t: string, key: string)
    requires key != [] && key[0] == QUOTE && After(t, key).Some?
    ensures UpToQuote(t).Some?
    decreases |t|
  {
    if t[0] != QUOTE {
      QuoteFound(t[1..], key);
    }
  }

  lemma TornLine(line: string, ts: nat, level: LogLevel, component: string, seqNo: nat, event: string, r: Rests,
                 k: nat, t: string)
    requires Found(line, ts, level, component, seqNo, event, r) && HasKeys(line) && k <= |line|
    requires line != [] && line[0] == '{' && Fits(ts) && Fits(seqNo) && NoQuote(component) && NoQuote(event)
    requires ParseEventRecord(t).Some?
    ensures ParseEventRecord(line[..k] + t).Some? <==> !Spoils(line, level, k)
  {
    ParsesExactly(t);
    ParsesExactly(line[..k] + t);
    QuoteFound(t, TextKey("level"));
    TornNumbers(line, ts, level, component, seqNo, event, r, k, t);
    TornLevel(line, level, r.level, k, t);
    TornTexts(line, component, event, r, k, t);
    var glued := line[..k] + t;
    assert glued[|glued| - 1] == t[|t| - 1] && glued[0] == '{';
  }

  /**
   A printed line that breaks off at k, with a whole record run on to it, is rejected exactly for the cuts
   that spoil it; for all other cuts it parses.
   */
  lemma TornParses(ts: nat, level: LogLevel, component: string, seqNo: nat, event: string, instance: Option<int>,
                   extra: string, k: nat, t: string)
    requires IsValidComponent(component) && IsValidComponent(event) && Fits(ts) && Fits(seqNo)
    requires k <= |FormatFields(ts, level, component, seqNo, event, instance, extra)| && ParseEventRecord(t).Some?
    ensures var line := FormatFields(ts, level, component, seqNo, event, instance, extra);
      HasKeys(line) && (ParseEventRecord(line[..k] + t).Some? <==> !Spoils(line, level, k))
  {
    var line := FormatFields(ts, level, component, seqNo, event, instance, extra);
    var r := KeysFound(ts, level, component, seqNo, event, instance, extra);
    FoundKeys(line, ts, level, component, seqNo, event, r);
    LineCloses(ts, level, component, seqNo, event, instance, extra);
    ComponentNoQuote(component);
    ComponentNoQuote(event);
    TornLine(line, ts, level, component, seqNo, event, r, k, t);
  }
}
