/** One event-log record as text: how the writer prints it and how the reader recovers its fields. */
module LogFormat {
  import opened Options
  import opened Words

  const MAX_RECORD_BYTES: nat := 4096
  const QUOTE: char := '"'

  // ----- numbers -----

  predicate IsDigit(c: char) {
    '0' <= c <= '9'
  }

  function DigitValue(c: char): nat
    requires IsDigit(c)
  {
    c as nat - '0' as nat
  }

  function Digit(d: nat): (c: char)
    requires d < 10
    ensures IsDigit(c) && DigitValue(c) == d
  {
    (d + '0' as nat) as char
  }

  function Digits(n: nat): (s: string)
    ensures s != [] && forall c | c in s :: IsDigit(c)
  {
    if n < 10 then [Digit(n)] else Digits(n / 10) + [Digit(n % 10)]
  }

  function Decimal(n: int): string {
    if n < 0 then "-" + Digits(-n) else Digits(n)
  }

  predicate AllDigits(s: string) {
    forall c | c in s :: IsDigit(c)
  }

  function ValueOf(s: string): nat
    requires AllDigits(s)
  {
    if s == [] then 0 else 10 * ValueOf(s[..|s| - 1]) + DigitValue(s[|s| - 1])
  }

  /** The longest run of digits that s starts with. */
  function DigitRun(s: string): (r: string)
    ensures AllDigits(r) && r <= s
  {
    if s != [] && IsDigit(s[0]) then [s[0]] + DigitRun(s[1..]) else []
  }

  predicate Fits(v: int) {
    0 - TWO_TO_THE_63 <= v < TWO_TO_THE_63
  }

  /** A signed 64-bit number at the front of s; what follows it does not matter. */
  function ParseNumber(s: string): Option<int> {
    var negative := s != [] && s[0] == '-';
    var digits := DigitRun(if negative then s[1..] else s);
    if digits == [] then None
    else
      var v: int := if negative then 0 - ValueOf(digits) else ValueOf(digits);
      if Fits(v) then Some(v) else None
  }

  lemma {:induction false} DigitsValue(n: nat)
    ensures AllDigits(Digits(n)) && ValueOf(Digits(n)) == n
    decreases n
  {
    if n >= 10 {
      DigitsValue(n / 10);
      var s := Digits(n);
      assert s[..|s| - 1] == Digits(n / 10);
    } else {
      assert ValueOf(Digits(n)) == 10 * ValueOf([]) + n;
    }
  }

  predicate StartsNonDigit(s: string) {
    s == [] || !IsDigit(s[0])
  }

  lemma {:induction false} RunOfDigits(d: string, rest: string)
    requires AllDigits(d) && StartsNonDigit(rest)
    ensures DigitRun(d + rest) == d
    decreases |d|
  {
    if d == [] {
      assert d + rest == rest;
    } else {
      assert (d + rest)[1..] == d[1..] + rest;
      RunOfDigits(d[1..], rest);
    }
  }

  /** A printed number reads back as itself, whatever non-digit follows, exactly when it fits in 64 signed bits. */
  lemma NumberRoundTrip(n: int, rest: string)
    requires StartsNonDigit(rest)
    ensures ParseNumber(Decimal(n) + rest) == if Fits(n) then Some(n) else None
  {
    var d := Digits(if n < 0 then -n else n);
    DigitsValue(if n < 0 then -n else n);
    RunOfDigits(d, rest);
    if n < 0 {
      assert (Decimal(n) + rest)[1..] == d + rest;
    } else {
      assert d[0] in d && (d + rest)[0] == d[0];
    }
  }

  // ----- fields -----

  /** The text after the first occurrence of key. */
  function After(s: string, key: string): Option<string> {
    if |s| < |key| then None
    else if key <= s then Some(s[|key|..])
    else if s == [] then None
    else After(s[1..], key)
  }

  function ExtractNumber(line: string, key: string): Option<int> {
    match After(line, key)
    case None => None
    case Some(rest) => ParseNumber(rest)
  }

  /** The text up to the next quote. */
  function UpToQuote(s: string): Option<string> {
    if s == [] then None
    else if s[0] == QUOTE then Some([])
    else match UpToQuote(s[1..])
      case None => None
      case Some(v) => Some([s[0]] + v)
  }

  function ExtractString(line: string, key: string): Option<string> {
    match After(line, key)
    case None => None
    case Some(rest) => UpToQuote(rest)
  }

  datatype LogLevel = Info | Warn | Error

  function LevelName(level: LogLevel): string {
    match level
    case Info => "info"
    case Warn => "warn"
    case Error => "error"
  }

  function LevelFromName(name: string): Option<LogLevel> {
    if name == "info" then Some(Info)
    else if name == "warn" then Some(Warn)
    else if name == "error" then Some(Error)
    else None
  }

  datatype EventRecord = EventRecord(ts: nat, level: LogLevel, component: string, seqNo: nat, event: string,
                                     instance: Option<int>, raw: string)

  /** A number field is looked up by its quoted name and colon, a text field by these and the opening quote. */
  function NumberKey(name: string): string { "\"" + name + "\":" }

  function TextKey(name: string): string { NumberKey(name) + "\"" }

  /** The wrap-around of a negative timestamp stored as unsigned. */
  function ToUnsigned(v: int): nat
    requires Fits(v)
  {
    if v < 0 then v + TWO_TO_THE_64 else v
  }

  lemma ParsedFits(line: string, key: string)
    ensures ExtractNumber(line, key).Some? ==> Fits(ExtractNumber(line, key).value)
  {
  }

  /** Unknown fields are ignored; a missing or malformed one rejects the line. */
  function ParseEventRecord(line: string): Option<EventRecord> {
    if line == [] || line[0] != '{' || line[|line| - 1] != '}' then None
    else
      var schema := ExtractNumber(line, NumberKey("schema"));
      var ts := ExtractNumber(line, NumberKey("ts"));
      var levelName := ExtractString(line, TextKey("level"));
      var component := ExtractString(line, TextKey("component"));
      var seqNo := ExtractNumber(line, NumberKey("seq"));
      var event := ExtractString(line, TextKey("event"));
      if schema != Some(1) || ts.None? || levelName.None? || component.None? || seqNo.None? || event.None? then None
      else if LevelFromName(levelName.value).None? || seqNo.value < 0 then None
      else
        ParsedFits(line, NumberKey("ts"));
        Some(EventRecord(ToUnsigned(ts.value), LevelFromName(levelName.value).value, component.value, seqNo.value,
                         event.value, ExtractNumber(line, NumberKey("instance")), line))
  }

  lemma ParsedRaw(line: string)
    ensures ParseEventRecord(line).Some? ==>
              line[0] == '{' && line[|line| - 1] == '}' && ParseEventRecord(line).value.raw == line
  {
  }

  // ----- printing -----

  predicate IsComponentChar(c: char) {
    'a' <= c <= 'z' || 'A' <= c <= 'Z' || '0' <= c <= '9' || c == '_' || c == '.' || c == '-'
  }

  predicate IsValidComponent(value: string) {
    value != [] && forall c | c in value :: IsComponentChar(c)
  }

  /** Extra fields may not break out of the record or close it early. */
  predicate AcceptedExtra(extra: string) {
    '\n' !in extra && '}' !in extra && (extra == [] || extra[0] == QUOTE)
  }

  /** A field name and what follows its colon; a text value and what follows its closing quote. */
  function Key(name: string, rest: string): string { "\"" + name + "\":" + rest }

  function Text(value: string, rest: string): string { "\"" + value + "\"" + rest }

  function Ending(instance: Option<int>, extra: string): string {
    var e := (if extra == [] then "" else "," + extra) + "}";
    if instance.Some? then "," + Key("instance", Decimal(instance.value) + e) else e
  }

  /** The line from each field on. */
  function FromEvent(event: string, instance: Option<int>, extra: string): string {
    Key("event", Text(event, Ending(instance, extra)))
  }

  function FromSeq(seqNo: nat, event: string, instance: Option<int>, extra: string): string {
    Key("seq", Decimal(seqNo) + ("," + FromEvent(event, instance, extra)))
  }

  function FromComponent(component: string, seqNo: nat, event: string, instance: Option<int>, extra: string): string {
    Key("component", Text(component, "," + FromSeq(seqNo, event, instance, extra)))
  }

  function FromLevel(level: LogLevel, component: string, seqNo: nat, event: string, instance: Option<int>,
                     extra: string): string
  {
    Key("level", Text(LevelName(level), "," + FromComponent(component, seqNo, event, instance, extra)))
  }

  function FromTs(ts: nat, level: LogLevel, component: string, seqNo: nat, event: string, instance: Option<int>,
                  extra: string): string
  {
    Key("ts", Decimal(ts) + ("," + FromLevel(level, component, seqNo, event, instance, extra)))
  }

  /** All fields of a record as one line. */
  function FormatFields(ts: nat, level: LogLevel, component: string, seqNo: nat, event: string,
                        instance: Option<int>, extra: string): string
  {
    "{" + Key("schema", "1," + FromTs(ts, level, component, seqNo, event, instance, extra))
  }

  const NUL: char := '\0'

  /** What a C string function sees of a text. */
  function UpToNul(s: string): (r: string)
    ensures r <= s && NUL !in r && (NUL !in s ==> r == s)
    ensures r == s || (|r| < |s| && s[|r|] == NUL)
  {
    if s == [] || s[0] == NUL then [] else [s[0]] + UpToNul(s[1..])
  }

  /** The line that append writes, without its newline; the formatting stops at a NUL in the extra fields. */
  function FormatRecord(ts: nat, level: LogLevel, component: string, seqNo: nat, event: string,
                        instance: Option<int>, extra: string): string
  {
    FormatFields(ts, level, component, seqNo, event, instance, UpToNul(extra))
  }

  // ----- finding a field -----

  predicate NoQuote(s: string) {
    QUOTE !in s
  }

  /** A field name in a search: letters only, so it starts with neither a colon nor a comma nor a brace. */
  predicate Name(name: string) {
    name != [] && forall c | c in name :: 'a' <= c <= 'z'
  }

  /** The two kinds of search key for a field. */
  predicate SearchKey(key: string, name: string) {
    Name(name) && (key == NumberKey(name) || key == TextKey(name))
  }

  lemma SkipOne(s: string, key: string, name: string)
    requires SearchKey(key, name) && s != [] && !(key <= s)
    ensures After(s, key) == After(s[1..], key)
  {
  }

  /** Text without quotes is passed over. */
  lemma {:induction false} SkipPlain(p: string, rest: string, key: string, name: string)
    requires SearchKey(key, name) && NoQuote(p)
    ensures After(p + rest, key) == After(rest, key)
    decreases |p|
  {
    if p == [] {
      assert p + rest == rest;
    } else {
      assert (p + rest)[0] == p[0] && p[0] in p && key[0] == QUOTE;
      SkipOne(p + rest, key, name);
      assert (p + rest)[1..] == p[1..] + rest;
      SkipPlain(p[1..], rest, key, name);
    }
  }

  /** A quote followed by something that no field name starts with is passed over. */
  lemma SkipClosing(rest: string, key: string, name: string)
    requires SearchKey(key, name) && (rest == [] || !('a' <= rest[0] <= 'z'))
    ensures After("\"" + rest, key) == After(rest, key)
  {
    var s := "\"" + rest;
    assert key[1] == name[0] && name[0] in name;
    assert s[1..] == rest;
    if rest != [] {
      assert s[1] == rest[0];
    }
    SkipOne(s, key, name);
  }

  /** A quoted token that is not the name followed by a colon is passed over. */
  lemma SkipToken(t: string, rest: string, key: string, name: string)
    requires SearchKey(key, name) && NoQuote(t)
    requires t != name || rest == [] || rest[0] != ':'
    requires rest == [] || !('a' <= rest[0] <= 'z')
    ensures After("\"" + t + "\"" + rest, key) == After(rest, key)
  {
    var s := "\"" + t + "\"" + rest;
    if key <= s {
      TokenIsName(t, rest, key, name);
    }
    SkipOne(s, key, name);
    assert s[1..] == t + ("\"" + rest);
    SkipPlain(t, "\"" + rest, key, name);
    SkipClosing(rest, key, name);
  }

  lemma TokenIsName(t: string, rest: string, key: string, name: string)
    requires SearchKey(key, name) && NoQuote(t) && key <= "\"" + t + "\"" + rest
    ensures t == name && rest != [] && rest[0] == ':'
  {
    var s := "\"" + t + "\"" + rest;
    assert |key| >= |name| + 3 && key[|name| + 1] == QUOTE && key[|name| + 2] == ':';
    assert s[|name| + 1] == QUOTE && s[|name| + 2] == ':' && s[|t| + 1] == QUOTE;
    assert forall i | 0 <= i < |name| :: name[i] in name && s[i + 1] == key[i + 1] == name[i];
    assert forall i | 0 <= i < |t| :: t[i] in t && s[i + 1] == t[i];
    assert |t| == |name|;
    assert s[|t| + 2] == rest[0];
  }

  lemma SkipKey(other: string, rest: string, key: string, name: string)
    requires SearchKey(key, name) && NoQuote(other) && other != name
    ensures After(Key(other, rest), key) == After(rest, key)
  {
    assert Key(other, rest) == "\"" + other + "\"" + (":" + rest);
    SkipToken(other, ":" + rest, key, name);
    SkipPlain(":", rest, key, name);
  }

  lemma SkipText(value: string, rest: string, key: string, name: string)
    requires SearchKey(key, name) && NoQuote(value) && rest != [] && rest[0] in {',', '}'}
    ensures After(Text(value, rest), key) == After(rest, key)
  {
    SkipToken(value, rest, key, name);
  }

  lemma NumberHere(name: string, rest: string)
    ensures After(Key(name, rest), NumberKey(name)) == Some(rest)
  {
    assert Key(name, rest) == NumberKey(name) + rest;
    assert NumberKey(name) <= NumberKey(name) + rest;
  }

  lemma TextHere(name: string, value: string, rest: string)
    requires NoQuote(value)
    ensures ExtractString(Key(name, Text(value, rest)), TextKey(name)) == Some(value)
  {
    var s := Key(name, Text(value, rest));
    assert s == TextKey(name) + (value + ("\"" + rest));
    assert TextKey(name) <= s && s[|TextKey(name)|..] == value + ("\"" + rest);
    QuoteEnds(value, rest);
  }

  lemma {:induction false} QuoteEnds(value: string, rest: string)
    requires NoQuote(value)
    ensures UpToQuote(value + ("\"" + rest)) == Some(value)
    decreases |value|
  {
    var s := value + ("\"" + rest);
    if value != [] {
      assert s[0] == value[0] && s[1..] == value[1..] + ("\"" + rest);
      QuoteEnds(value[1..], rest);
      assert [value[0]] + value[1..] == value;
    }
  }

  lemma ComponentNoQuote(value: string)
    requires IsValidComponent(value)
    ensures NoQuote(value) && '\n' !in value
  {
    assert !IsComponentChar(QUOTE) && !IsComponentChar('\n');
  }

  lemma DecimalNoQuote(n: int)
    ensures NoQuote(Decimal(n)) && '\n' !in Decimal(n)
  {
    var d := Digits(if n < 0 then -n else n);
    assert forall c | c in d :: IsDigit(c);
  }

  lemma LevelNoQuote(level: LogLevel)
    ensures NoQuote(LevelName(level)) && '\n' !in LevelName(level)
    ensures LevelFromName(LevelName(level)) == Some(level)
  {
  }

  // ----- the round trip -----

  lemma EndingStarts(instance: Option<int>, extra: string)
    ensures Ending(instance, extra) != [] && Ending(instance, extra)[0] in {',', '}'}
    ensures Ending(instance, extra)[|Ending(instance, extra)| - 1] == '}'
  {
  }

  /** A number field other than the one looked for. */
  lemma SkipNumberField(other: string, n: int, rest: string, key: string, name: string)
    requires SearchKey(key, name) && NoQuote(other) && other != name
    ensures After(Key(other, Decimal(n) + ("," + rest)), key) == After(rest, key)
  {
    DecimalNoQuote(n);
    SkipKey(other, Decimal(n) + ("," + rest), key, name);
    SkipPlain(Decimal(n), "," + rest, key, name);
    SkipPlain(",", rest, key, name);
  }

  /** A text field other than the one looked for, with more fields behind it. */
  lemma SkipTextField(other: string, value: string, rest: string, key: string, name: string)
    requires SearchKey(key, name) && NoQuote(other) && other != name && NoQuote(value)
    ensures After(Key(other, Text(value, "," + rest)), key) == After(rest, key)
  {
    SkipKey(other, Text(value, "," + rest), key, name);
    SkipText(value, "," + rest, key, name);
    SkipPlain(",", rest, key, name);
  }

  lemma SkipSchema(rest: string, key: string, name: string)
    requires SearchKey(key, name) && name != "schema"
    ensures After("{" + Key("schema", "1," + rest), key) == After(rest, key)
  {
    SkipPlain("{", Key("schema", "1," + rest), key, name);
    SkipKey("schema", "1," + rest, key, name);
    SkipPlain("1,", rest, key, name);
  }

  /** Past the timestamp, past the level, past the component, past the sequence number. */
  lemma SkipTs(ts: nat, rest: string, key: string, name: string)
    requires SearchKey(key, name) && name !in {"schema", "ts"}
    ensures After("{" + Key("schema", "1," + Key("ts", Decimal(ts) + ("," + rest))), key) == After(rest, key)
  {
    SkipSchema(Key("ts", Decimal(ts) + ("," + rest)), key, name);
    SkipNumberField("ts", ts, rest, key, name);
  }

  lemma SkipLevel(level: LogLevel, rest: string, key: string, name: string)
    requires SearchKey(key, name) && name != "level"
    ensures After(Key("level", Text(LevelName(level), "," + rest)), key) == After(rest, key)
  {
    LevelNoQuote(level);
    SkipTextField("level", LevelName(level), rest, key, name);
  }

  lemma SkipComponent(component: string, rest: string, key: string, name: string)
    requires SearchKey(key, name) && name != "component" && IsValidComponent(component)
    ensures After(Key("component", Text(component, "," + rest)), key) == After(rest, key)
  {
    ComponentNoQuote(component);
    SkipTextField("component", component, rest, key, name);
  }

  lemma SkipEvent(event: string, ending: string, key: string, name: string)
    requires SearchKey(key, name) && name != "event" && IsValidComponent(event) && ending != []
             && ending[0] in {',', '}'}
    ensures After(Key("event", Text(event, ending)), key) == After(ending, key)
  {
    ComponentNoQuote(event);
    SkipKey("event", Text(event, ending), key, name);
    SkipText(event, ending, key, name);
  }

  lemma FieldNames()
    ensures Name("schema") && Name("ts") && Name("level") && Name("component") && Name("seq") && Name("event")
            && Name("instance")
  {
  }

  /** What the parser finds for each field of a printed line. */
  lemma FindSchema(rest: string)
    ensures ExtractNumber("{" + Key("schema", "1," + rest), NumberKey("schema")) == Some(1)
  {
    FieldNames();
    SkipPlain("{", Key("schema", "1," + rest), NumberKey("schema"), "schema");
    NumberHere("schema", "1," + rest);
    assert "1," + rest == "1" + ("," + rest);
    NumberRoundTrip(1, "," + rest);
    assert Decimal(1) == "1";
  }

  lemma FindTs(ts: nat, rest: string)
    ensures ExtractNumber("{" + Key("schema", "1," + Key("ts", Decimal(ts) + ("," + rest))), NumberKey("ts"))
            == if Fits(ts) then Some(ts) else None
  {
    FieldNames();
    SkipSchema(Key("ts", Decimal(ts) + ("," + rest)), NumberKey("ts"), "ts");
    NumberHere("ts", Decimal(ts) + ("," + rest));
    NumberRoundTrip(ts, "," + rest);
  }

  lemma FindSeq(seqNo: nat, rest: string)
    ensures ExtractNumber(Key("seq", Decimal(seqNo) + ("," + rest)), NumberKey("seq"))
            == if Fits(seqNo) then Some(seqNo) else None
  {
    NumberHere("seq", Decimal(seqNo) + ("," + rest));
    NumberRoundTrip(seqNo, "," + rest);
  }

  /** An instance that extra fields alone would show. */
  function ExtraInstance(extra: string): Option<int> {
    ExtractNumber(Ending(None, extra), NumberKey("instance"))
  }

  lemma FindInstance(instance: Option<int>, extra: string)
    requires instance.Some? ==> Fits(instance.value)
    ensures ExtractNumber(Ending(instance, extra), NumberKey("instance"))
            == if instance.Some? then instance else ExtraInstance(extra)
  {
    if instance.Some? {
      FieldNames();
      var e := Ending(None, extra);
      SkipPlain(",", Key("instance", Decimal(instance.value) + e), NumberKey("instance"), "instance");
      NumberHere("instance", Decimal(instance.value) + e);
      NumberRoundTrip(instance.value, e);
    }
  }

  predicate Closed(s: string) {
    s != [] && s[|s| - 1] == '}'
  }

  lemma KeyCloses(name: string, rest: string)
    requires Closed(rest)
    ensures Closed(Key(name, rest))
  {
  }

  lemma TextCloses(value: string, rest: string)
    requires Closed(rest)
    ensures Closed(Text(value, rest)) && Closed("," + rest)
  {
  }

  lemma NumberCloses(n: int, rest: string)
    requires Closed(rest)
    ensures Closed(Decimal(n) + ("," + rest))
  {
  }

  lemma FieldCloses(name: string, value: string, rest: string)
    requires Closed(rest)
    ensures Closed(Key(name, Text(value, "," + rest)))
  {
    TextCloses([], rest);
    TextCloses(value, "," + rest);
    KeyCloses(name, Text(value, "," + rest));
  }

  lemma NumberFieldCloses(name: string, n: int, rest: string)
    requires Closed(rest)
    ensures Closed(Key(name, Decimal(n) + ("," + rest)))
  {
    NumberCloses(n, rest);
    KeyCloses(name, Decimal(n) + ("," + rest));
  }

  lemma SchemaCloses(rest: string)
    requires Closed(rest)
    ensures Closed("{" + Key("schema", "1," + rest))
  {
    KeyCloses("schema", "1," + rest);
  }

  lemma LineCloses(ts: nat, level: LogLevel, component: string, seqNo: nat, event: string, instance: Option<int>,
                   extra: string)
    ensures var line := FormatFields(ts, level, component, seqNo, event, instance, extra);
      Closed(line) && line[0] == '{'
  {
    EndingStarts(instance, extra);
    TextCloses(event, Ending(instance, extra));
    KeyCloses("event", Text(event, Ending(instance, extra)));
    NumberFieldCloses("seq", seqNo, FromEvent(event, instance, extra));
    FieldCloses("component", component, FromSeq(seqNo, event, instance, extra));
    FieldCloses("level", LevelName(level), FromComponent(component, seqNo, event, instance, extra));
    NumberFieldCloses("ts", ts, FromLevel(level, component, seqNo, event, instance, extra));
    SchemaCloses(FromTs(ts, level, component, seqNo, event, instance, extra));
  }

  /** The text fields and the sequence number of a printed line. */
  lemma FindMiddle(ts: nat, level: LogLevel, component: string, seqNo: nat, event: string, instance: Option<int>,
                   extra: string)
    requires IsValidComponent(component) && IsValidComponent(event)
    ensures var line := FormatFields(ts, level, component, seqNo, event, instance, extra);
      && ExtractString(line, TextKey("level")) == Some(LevelName(level))
      && ExtractString(line, TextKey("component")) == Some(component)
      && ExtractNumber(line, NumberKey("seq")) == (if Fits(seqNo) then Some(seqNo) else None)
  {
    FieldNames();
    var s := FromSeq(seqNo, event, instance, extra);
    var c := FromComponent(component, seqNo, event, instance, extra);
    var l := FromLevel(level, component, seqNo, event, instance, extra);
    LevelNoQuote(level);
    ComponentNoQuote(component);
    SkipTs(ts, l, TextKey("level"), "level");
    TextHere("level", LevelName(level), "," + c);
    SkipTs(ts, l, TextKey("component"), "component");
    SkipLevel(level, c, TextKey("component"), "component");
    TextHere("component", component, "," + s);
    SkipTs(ts, l, NumberKey("seq"), "seq");
    SkipLevel(level, c, NumberKey("seq"), "seq");
    SkipComponent(component, s, NumberKey("seq"), "seq");
    FindSeq(seqNo, FromEvent(event, instance, extra));
  }

  /** The event and the instance of a printed line. */
  lemma FindLast(ts: nat, level: LogLevel, component: string, seqNo: nat, event: string, instance: Option<int>,
                 extra: string)
    requires IsValidComponent(component) && IsValidComponent(event) && (instance.Some? ==> Fits(instance.value))
    ensures var line := FormatFields(ts, level, component, seqNo, event, instance, extra);
      && ExtractString(line, TextKey("event")) == Some(event)
      && ExtractNumber(line, NumberKey("instance")) == (if instance.Some? then instance else ExtraInstance(extra))
  {
    FieldNames();
    var e := FromEvent(event, instance, extra);
    SkipToEvent(ts, level, component, seqNo, e, TextKey("event"), "event");
    ComponentNoQuote(event);
    TextHere("event", event, Ending(instance, extra));
    SkipToEvent(ts, level, component, seqNo, e, NumberKey("instance"), "instance");
    EndingStarts(instance, extra);
    SkipEvent(event, Ending(instance, extra), NumberKey("instance"), "instance");
    FindInstance(instance, extra);
  }

  lemma SkipToEvent(ts: nat, level: LogLevel, component: string, seqNo: nat, rest: string, key: string, name: string)
    requires SearchKey(key, name) && name in {"event", "instance"} && IsValidComponent(component)
    ensures var s := Key("seq", Decimal(seqNo) + ("," + rest));
      var c := Key("component", Text(component, "," + s));
      var l := Key("level", Text(LevelName(level), "," + c));
      After("{" + Key("schema", "1," + Key("ts", Decimal(ts) + ("," + l))), key) == After(rest, key)
  {
    var s := Key("seq", Decimal(seqNo) + ("," + rest));
    var c := Key("component", Text(component, "," + s));
    var l := Key("level", Text(LevelName(level), "," + c));
    SkipTs(ts, l, key, name);
    SkipLevel(level, c, key, name);
    SkipComponent(component, s, key, name);
    SkipNumberField("seq", seqNo, rest, key, name);
  }

  /** Whatever fields are printed, the parser recovers. */
  lemma FieldsRoundTrip(ts: nat, level: LogLevel, component: string, seqNo: nat, event: string, instance: Option<int>,
                        extra: string)
    requires IsValidComponent(component) && IsValidComponent(event) && (instance.Some? ==> Fits(instance.value))
    ensures var line := FormatFields(ts, level, component, seqNo, event, instance, extra);
      ParseEventRecord(line) ==
      if Fits(ts) && Fits(seqNo) then
        Some(EventRecord(ts, level, component, seqNo, event,
                         if instance.Some? then instance else ExtraInstance(extra), line))
      else None
  {
    var t := FromTs(ts, level, component, seqNo, event, instance, extra);
    LineCloses(ts, level, component, seqNo, event, instance, extra);
    FindSchema(t);
    FindTs(ts, FromLevel(level, component, seqNo, event, instance, extra));
    FindMiddle(ts, level, component, seqNo, event, instance, extra);
    FindLast(ts, level, component, seqNo, event, instance, extra);
    FieldsParse(FormatFields(ts, level, component, seqNo, event, instance, extra), ts, level, component, seqNo, event,
                if instance.Some? then instance else ExtraInstance(extra));
  }

  /** The instance that a printed record shows: its own, or else one that its extra fields happen to name. */
  function ShownInstance(instance: Option<int>, extra: string): Option<int> {
    if instance.Some? then instance else ExtraInstance(UpToNul(extra))
  }

  /**
   Whatever append prints, the parser recovers: it accepts the line exactly when the timestamp and the
   sequence number fit in 63 bits, and then finds the very fields that were printed, except that without
   an instance of its own a record shows the one its extra fields happen to name.
   */
  lemma RoundTrip(ts: nat, level: LogLevel, component: string, seqNo: nat, event: string, instance: Option<int>,
                  extra: string)
    requires IsValidComponent(component) && IsValidComponent(event) && (instance.Some? ==> Fits(instance.value))
    ensures var line := FormatRecord(ts, level, component, seqNo, event, instance, extra);
      ParseEventRecord(line) ==
      if Fits(ts) && Fits(seqNo) then
        Some(EventRecord(ts, level, component, seqNo, event, ShownInstance(instance, extra), line))
      else None
  {
    FieldsRoundTrip(ts, level, component, seqNo, event, instance, UpToNul(extra));
  }

  /** A line in which every field is found parses to the record of these fields. */
  lemma FieldsParse(line: string, ts: nat, level: LogLevel, component: string, seqNo: nat, event: string,
                    instance: Option<int>)
    requires Closed(line) && line[0] == '{' && ExtractNumber(line, NumberKey("schema")) == Some(1)
    requires ExtractNumber(line, NumberKey("ts")) == if Fits(ts) then Some(ts) else None
    requires ExtractString(line, TextKey("level")) == Some(LevelName(level))
    requires ExtractString(line, TextKey("component")) == Some(component)
    requires ExtractNumber(line, NumberKey("seq")) == if Fits(seqNo) then Some(seqNo) else None
    requires ExtractString(line, TextKey("event")) == Some(event)
    requires ExtractNumber(line, NumberKey("instance")) == instance
    ensures ParseEventRecord(line) ==
            if Fits(ts) && Fits(seqNo) then Some(EventRecord(ts, level, component, seqNo, event, instance, line))
            else None
  {
    LevelNoQuote(level);
  }

  /** Every field survives exactly when the record has an instance or its extra fields name none. */
  lemma InstanceSurvives(ts: nat, level: LogLevel, component: string, seqNo: nat, event: string,
                         instance: Option<int>, extra: string)
    requires IsValidComponent(component) && IsValidComponent(event) && (instance.Some? ==> Fits(instance.value))
    requires Fits(ts) && Fits(seqNo)
    ensures var line := FormatRecord(ts, level, component, seqNo, event, instance, extra);
      ParseEventRecord(line) == Some(EventRecord(ts, level, component, seqNo, event, instance, line))
      <==> instance.Some? || ExtraInstance(UpToNul(extra)).None?
  {
    RoundTrip(ts, level, component, seqNo, event, instance, extra);
  }

  /** A printed record is one line. */
  lemma OneLine(ts: nat, level: LogLevel, component: string, seqNo: nat, event: string, instance: Option<int>,
                extra: string)
    requires IsValidComponent(component) && IsValidComponent(event) && AcceptedExtra(extra)
    ensures '\n' !in FormatRecord(ts, level, component, seqNo, event, instance, extra)
  {
    var cut := UpToNul(extra);
    assert forall c | c in cut :: c in extra;
    ComponentNoQuote(component);
    ComponentNoQuote(event);
    LevelNoQuote(level);
    EndingLine(instance, cut);
    EventLine(event, Ending(instance, cut));
    NumberFieldLine("seq", seqNo, FromEvent(event, instance, cut));
    TextFieldLine("component", component, FromSeq(seqNo, event, instance, cut));
    TextFieldLine("level", LevelName(level), FromComponent(component, seqNo, event, instance, cut));
    NumberFieldLine("ts", ts, FromLevel(level, component, seqNo, event, instance, cut));
    SchemaLine(FromTs(ts, level, component, seqNo, event, instance, cut));
  }

  lemma EndingLine(instance: Option<int>, extra: string)
    requires '\n' !in extra
    ensures '\n' !in Ending(instance, extra)
  {
    if instance.Some? {
      DecimalNoQuote(instance.value);
    }
  }

  lemma EventLine(event: string, rest: string)
    requires '\n' !in event && '\n' !in rest
    ensures '\n' !in Key("event", Text(event, rest))
  {
  }

  lemma SchemaLine(rest: string)
    requires '\n' !in rest
    ensures '\n' !in "{" + Key("schema", "1," + rest)
  {
  }

  lemma NumberFieldLine(name: string, n: int, rest: string)
    requires '\n' !in name && '\n' !in rest
    ensures '\n' !in Key(name, Decimal(n) + ("," + rest))
  {
    DecimalNoQuote(n);
  }

  lemma TextFieldLine(name: string, value: string, rest: string)
    requires '\n' !in name && '\n' !in value && '\n' !in rest
    ensures '\n' !in Key(name, Text(value, "," + rest))
  {
  }

  // ----- two lines run together -----

  lemma TextFieldAppends(name: string, value: string, rest: string, more: string)
    ensures Key(name, Text(value, "," + rest)) + more == Key(name, Text(value, "," + (rest + more)))
  {
  }

  lemma NumberFieldAppends(name: string, n: int, rest: string, more: string)
    ensures Key(name, Decimal(n) + ("," + rest)) + more == Key(name, Decimal(n) + ("," + (rest + more)))
  {
  }

  lemma EndingAppends(instance: Option<int>, extra: string, more: string)
    requires extra != [] && Closed(more)
    ensures Ending(instance, extra) + more == Ending(instance, extra + "}" + more[..|more| - 1])
  {
    var longer := extra + "}" + more[..|more| - 1];
    assert more == more[..|more| - 1] + "}";
    assert "," + extra + "}" + more == "," + longer + "}";
    if instance.Some? {
      var d := Decimal(instance.value);
      assert "," + Key("instance", d + ("," + extra + "}")) + more == "," + Key("instance", d + ("," + longer + "}"));
    }
  }

  /** A line with a closed line run on to it is a line with longer extra fields. */
  lemma LineAppends(ts: nat, level: LogLevel, component: string, seqNo: nat, event: string, instance: Option<int>,
                    extra: string, more: string)
    requires extra != [] && Closed(more)
    ensures FormatFields(ts, level, component, seqNo, event, instance, extra) + more ==
            FormatFields(ts, level, component, seqNo, event, instance, extra + "}" + more[..|more| - 1])
  {
    var longer := extra + "}" + more[..|more| - 1];
    EndingAppends(instance, extra, more);
    assert FromEvent(event, instance, extra) + more == FromEvent(event, instance, longer);
    NumberFieldAppends("seq", seqNo, FromEvent(event, instance, extra), more);
    TextFieldAppends("component", component, FromSeq(seqNo, event, instance, extra), more);
    TextFieldAppends("level", LevelName(level), FromComponent(component, seqNo, event, instance, extra), more);
    NumberFieldAppends("ts", ts, FromLevel(level, component, seqNo, event, instance, extra), more);
    SchemaAppends(FromTs(ts, level, component, seqNo, event, instance, extra), more);
  }

  lemma SchemaAppends(rest: string, more: string)
    ensures "{" + Key("schema", "1," + rest) + more == "{" + Key("schema", "1," + (rest + more))
  {
  }

  /** Of two records run together the parser sees the first, if it has an instance and extra fields. */
  lemma FirstOfTwo(ts: nat, level: LogLevel, component: string, seqNo: nat, event: string, instance: Option<int>,
                   extra: string, more: string)
    requires IsValidComponent(component) && IsValidComponent(event) && instance.Some? && Fits(instance.value)
    requires Fits(ts) && Fits(seqNo) && UpToNul(extra) != [] && Closed(more)
    ensures var glued := FormatRecord(ts, level, component, seqNo, event, instance, extra) + more;
      ParseEventRecord(glued) == Some(EventRecord(ts, level, component, seqNo, event, instance, glued))
  {
    LineAppends(ts, level, component, seqNo, event, instance, UpToNul(extra), more);
    FieldsRoundTrip(ts, level, component, seqNo, event, instance, UpToNul(extra) + "}" + more[..|more| - 1]);
  }

  lemma SchemaStarts(rest: string)
    ensures var s := "{" + Key("schema", "1," + rest); |s| > 10 && s[..10] == "{" + NumberKey("schema")
  {
  }

  /** A line that breaks off after its first key, and anything that does not start with a number after it. */
  lemma BrokenKey(more: string)
    requires StartsNonDigit(more) && (more == [] || more[0] != '-')
    ensures ParseEventRecord("{" + NumberKey("schema") + more).None?
  {
    FieldNames();
    SkipPlain("{", Key("schema", more), NumberKey("schema"), "schema");
    NumberHere("schema", more);
    assert "{" + NumberKey("schema") + more == "{" + Key("schema", more);
  }
}
