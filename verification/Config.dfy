/**
 The configuration file: a printer and a line-based parser for a subset of TOML. The
 fields are given by a table of sections.
 */
module Config {
  import opened Basics

  // ----- text -----

  /** Unicode white space. */
  predicate White(c: char) {
    || c == ' ' || '\t' <= c <= '\r' || c == '\U{85}' || c == '\U{A0}' || c == '\U{1680}'
    || '\U{2000}' <= c <= '\U{200A}' || c == '\U{2028}' || c == '\U{2029}' || c == '\U{202F}'
    || c == '\U{205F}' || c == '\U{3000}'
  }

  function TrimStart(s: string): string { if s != "" && White(s[0]) then TrimStart(s[1..]) else s }

  function TrimEnd(s: string): string { if s != "" && White(s[|s| - 1]) then TrimEnd(s[..|s| - 1]) else s }

  function Trim(s: string): string { TrimEnd(TrimStart(s)) }

  /** Neither end is white. */
  predicate Tight(s: string) { s != "" && !White(s[0]) && !White(s[|s| - 1]) }

  lemma TrimTight(s: string)
    requires Tight(s)
    ensures Trim(s) == s && Trim(" " + s) == s && Trim(s + " ") == s
  {
    assert (" " + s)[1..] == s;
    assert (s + " ")[..|s|] == s;
    assert TrimStart(s) == s && TrimEnd(s) == s;
    assert TrimStart(" " + s) == s;
    assert TrimStart(s + " ") == s + " ";
    assert TrimEnd(s + " ") == s;
  }

  /** The position of the first c; |s| if there is none. */
  function Find(s: string, c: char): (i: nat)
    ensures i <= |s|
  {
    if s == "" || s[0] == c then 0 else 1 + Find(s[1..], c)
  }

  lemma {:induction false} FindAfter(a: string, c: char, b: string)
    requires c !in a
    ensures Find(a + [c] + b, c) == |a|
  {
    if a != "" {
      assert (a + [c] + b)[1..] == a[1..] + [c] + b;
      FindAfter(a[1..], c, b);
    }
  }

  function DropReturn(s: string): string { if s != "" && s[|s| - 1] == '\r' then s[..|s| - 1] else s }

  /** The lines of a text; a last line break ends the last line. */
  function Lines(s: string): seq<string>
    decreases |s|
  {
    if s == "" then []
    else
      var i := Find(s, '\n');
      if i == |s| then [DropReturn(s)] else [DropReturn(s[..i])] + Lines(s[i + 1..])
  }

  function Unlines(lines: seq<string>): string {
    if lines == [] then "" else lines[0] + "\n" + Unlines(lines[1..])
  }

  /** A line that reading leaves as it is. */
  predicate Plain(s: string) { '\n' !in s && (s == "" || s[|s| - 1] != '\r') }

  lemma {:induction false} LinesOfUnlines(lines: seq<string>)
    requires forall i :: 0 <= i < |lines| ==> Plain(lines[i])
    ensures Lines(Unlines(lines)) == lines
  {
    if lines != [] {
      var s := Unlines(lines);
      FindAfter(lines[0], '\n', Unlines(lines[1..]));
      assert s == lines[0] + ['\n'] + Unlines(lines[1..]);
      assert s[..|lines[0]|] == lines[0] && s[|lines[0]| + 1..] == Unlines(lines[1..]);
      LinesOfUnlines(lines[1..]);
    }
  }

  // ----- values -----

  predicate Digit(c: char) { '0' <= c <= '9' }

  function Show(n: nat): (s: string)
    ensures s != "" && forall i :: 0 <= i < |s| ==> Digit(s[i])
  {
    (if n < 10 then "" else Show(n / 10)) + ['0' + (n % 10) as char]
  }

  predicate Digits(s: string) { forall i :: 0 <= i < |s| ==> Digit(s[i]) }

  function DigitsValue(s: string): nat
    requires Digits(s)
  {
    if s == "" then 0 else DigitsValue(s[..|s| - 1]) * 10 + (s[|s| - 1] - '0') as nat
  }

  lemma {:induction false} ShowRoundTrip(n: nat)
    ensures DigitsValue(Show(n)) == n
  {
    var last := '0' + (n % 10) as char;
    if n >= 10 {
      ShowRoundTrip(n / 10);
      assert Show(n)[..|Show(n)| - 1] == Show(n / 10);
    } else {
      assert Show(n)[..0] == "";
    }
  }

  /** An optional plus sign and digits, within the type of the field. */
  function ParseNumber(s: string, max: nat): Option<nat> {
    var d := if s != "" && s[0] == '+' then s[1..] else s;
    if d != "" && Digits(d) && DigitsValue(d) <= max then Some(DigitsValue(d)) else None
  }

  function ParseFlag(s: string): Option<bool> {
    if s == "true" then Some(true) else if s == "false" then Some(false) else None
  }

  function Split(s: string): seq<string>
    decreases |s|
  {
    var i := Find(s, ',');
    if i == |s| then [s] else [s[..i]] + Split(s[i + 1..])
  }

  function Names(parts: seq<string>): seq<string> {
    if parts == [] then []
    else (if Trim(parts[0]) == "" then [] else [Trim(parts[0])]) + Names(parts[1..])
  }

  function Join(names: seq<string>): string {
    if names == [] then "" else if |names| == 1 then names[0] else names[0] + ", " + Join(names[1..])
  }

  datatype Kind = TextField | FlagField(fallbackFlag: bool) | NumberField(max: nat, fallback: nat) | NamesField
  datatype Value = Text(text: string) | Flag(flag: bool) | Number(number: nat) | List(names: seq<string>)

  predicate Fits(k: Kind, v: Value) {
    match k
    case TextField => v.Text? && '\n' !in v.text
    case FlagField(_) => v.Flag?
    case NumberField(max, _) => v.Number? && v.number <= max
    case NamesField => v.List? && '\n' !in Join(v.names)
  }

  function Quoted(s: string): string { "\"" + s + "\"" }

  function ShowValue(v: Value): string {
    match v
    case Text(s) => Quoted(s)
    case Flag(b) => if b then "true" else "false"
    case Number(n) => Show(n)
    case List(names) => Quoted(Join(names))
  }

  function ParseValue(k: Kind, s: string): Value {
    match k
    case TextField => Text(s)
    case FlagField(d) => var b := ParseFlag(s); Flag(if b.Some? then b.value else d)
    case NumberField(max, d) => var n := ParseNumber(s, max); Number(if n.Some? then n.value else d)
    case NamesField => List(Names(Split(s)))
  }

  /** Numbers and flags come back; a text comes back inside its quotes. */
  function ReadBack(v: Value): Value {
    match v
    case Text(s) => Text(Quoted(s))
    case List(names) => List(Names(Split(Quoted(Join(names)))))
    case _ => v
  }

  /** A name that splitting and trimming leave as it is. */
  predicate CleanName(s: string) { Tight(s) && ',' !in s }

  predicate CleanNames(names: seq<string>) {
    names != [] && forall i :: 0 <= i < |names| ==> CleanName(names[i])
  }

  /** The first name with a quote before it and the last with one after it. */
  function QuoteEnds(names: seq<string>): (r: seq<string>)
    requires names != []
    ensures |r| == |names|
    ensures |names| == 1 ==> r[0] == Quoted(names[0])
    ensures |names| > 1 ==> r[0] == "\"" + names[0] && r[|names| - 1] == names[|names| - 1] + "\""
    ensures forall i :: 0 < i < |names| - 1 ==> r[i] == names[i]
  {
    QuoteLast(["\"" + names[0]] + names[1..])
  }

  function QuoteLast(names: seq<string>): seq<string>
    requires names != []
  {
    names[|names| - 1 := names[|names| - 1] + "\""]
  }

  lemma {:induction false} JoinQuoteLast(names: seq<string>)
    requires names != []
    ensures Join(QuoteLast(names)) == Join(names) + "\""
  {
    if |names| > 1 {
      JoinQuoteLast(names[1..]);
      assert QuoteLast(names)[1..] == QuoteLast(names[1..]);
    }
  }

  lemma JoinQuoteEnds(names: seq<string>)
    requires names != []
    ensures Join(QuoteEnds(names)) == Quoted(Join(names))
  {
    var quoted := ["\"" + names[0]] + names[1..];
    assert quoted[1..] == names[1..];
    assert Join(quoted) == "\"" + Join(names);
    JoinQuoteLast(quoted);
  }

  lemma QuoteEndsClean(names: seq<string>)
    requires CleanNames(names)
    ensures CleanNames(QuoteEnds(names))
  {
    hide White;
    NotWhite('"');
    var r := QuoteEnds(names);
    forall i | 0 <= i < |names| ensures CleanName(r[i]) {
      assert CleanName(names[i]);
    }
  }

  lemma NotWhite(c: char)
    requires c == '"'
    ensures !White(c)
  {
  }

  lemma {:induction false} FindNone(s: string, c: char)
    requires c !in s
    ensures Find(s, c) == |s|
  {
    if s != "" { FindNone(s[1..], c); }
  }

  /** Splitting undoes joining, also after the blank that follows a comma. */
  lemma {:induction false} NamesOfJoin(pre: string, names: seq<string>)
    requires pre == "" || pre == " "
    requires CleanNames(names)
    ensures Names(Split(pre + Join(names))) == names
    decreases |names|
  {
    hide White, Trim, Tight, Names;
    var s, first := pre + Join(names), pre + names[0];
    assert CleanName(names[0]);
    TrimTight(names[0]);
    assert "" + names[0] == names[0] && Tight(names[0]);
    if |names| == 1 {
      assert s == first;
      FindNone(s, ',');
      assert Split(s) == [first] + [];
      OneName(first, []);
      NoNames();
      assert names == [names[0]];
    } else {
      var rest := " " + Join(names[1..]);
      assert s == first + [','] + rest;
      FindAfter(first, ',', rest);
      assert s[..|first|] == first && s[|first| + 1..] == rest;
      NamesOfJoin(" ", names[1..]);
      OneName(first, Split(rest));
    }
  }

  lemma OneName(part: string, rest: seq<string>)
    requires Tight(Trim(part))
    ensures Names([part] + rest) == [Trim(part)] + Names(rest)
  {
    hide Trim;
    assert ([part] + rest)[1..] == rest;
  }

  lemma NoNames()
    ensures Names([]) == []
  {
  }

  /** A list of clean names gains a quote at either end. */
  lemma ListReadBack(names: seq<string>)
    requires CleanNames(names)
    ensures ReadBack(List(names)) == List(QuoteEnds(names)) && QuoteEnds(names) != names
  {
    hide CleanName, Names, Split, Join, QuoteEnds;
    JoinQuoteEnds(names);
    QuoteEndsClean(names);
    NamesOfJoin("", QuoteEnds(names));
    assert "" + Join(QuoteEnds(names)) == Join(QuoteEnds(names));
    assert |QuoteEnds(names)[0]| > |names[0]|;
  }

  lemma ValueRoundTrip(k: Kind, v: Value)
    requires Fits(k, v)
    ensures ParseValue(k, ShowValue(v)) == ReadBack(v)
  {
    hide Names, Split, Join;
    if v.Number? { ShowRoundTrip(v.number); }
  }

  lemma ShownIsTight(k: Kind, v: Value)
    requires Fits(k, v)
    ensures Tight(ShowValue(v)) && Plain(ShowValue(v))
  {
    hide Join;
  }

  // ----- sections and fields -----

  datatype Field = Field(key: string, kind: Kind)
  datatype Section = Section(name: string, fields: seq<Field>)

  /** The values of a configuration, by section and key. */
  type Values = map<(string, string), Value>

  predicate GoodKey(key: string) {
    Tight(key) && key[0] != '#' && key[0] != '[' && '=' !in key && '\n' !in key
  }

  predicate GoodSection(s: Section) {
    && Plain(s.name) && s.name != "" && '\n' !in s.name
    && (forall i :: 0 <= i < |s.fields| ==> GoodKey(s.fields[i].key))
    && (forall i, j :: 0 <= i < j < |s.fields| ==> s.fields[i].key != s.fields[j].key)
  }

  predicate GoodSchema(schema: seq<Section>) {
    && (forall i :: 0 <= i < |schema| ==> GoodSection(schema[i]))
    && (forall i, j :: 0 <= i < j < |schema| ==> schema[i].name != schema[j].name)
  }

  function FieldKind(fields: seq<Field>, key: string): Option<Kind> {
    if fields == [] then None else if fields[0].key == key then Some(fields[0].kind) else FieldKind(fields[1..], key)
  }

  /** The kind of a key in a section; keys before any header belong to general. */
  function Lookup(schema: seq<Section>, section: string, key: string): Option<Kind> {
    if schema == [] then None
    else if schema[0].name == section then FieldKind(schema[0].fields, key)
    else Lookup(schema[1..], section, key)
  }

  function Home(section: string): string { if section == "" then "general" else section }

  // ----- the printer -----

  function FieldLines(s: string, f: Field, c: Values): seq<string> {
    if (s, f.key) !in c || (c[(s, f.key)].List? && c[(s, f.key)].names == []) then []
    else [f.key + " = " + ShowValue(c[(s, f.key)])]
  }

  function FieldsLines(s: string, fields: seq<Field>, c: Values): seq<string> {
    if fields == [] then [] else FieldLines(s, fields[0], c) + FieldsLines(s, fields[1..], c)
  }

  /** Sections are set apart by an empty line. */
  function SchemaLines(schema: seq<Section>, c: Values): seq<string> {
    if schema == [] then []
    else ["[" + schema[0].name + "]"] + FieldsLines(schema[0].name, schema[0].fields, c)
         + (if |schema| == 1 then [] else [""]) + SchemaLines(schema[1..], c)
  }

  function ToToml(schema: seq<Section>, c: Values): string {
    Unlines(["# Configuraci\U{F3}n Vex Ecosystem", ""] + SchemaLines(schema, c))
  }

  // ----- the parser -----

  datatype State = State(values: Values, section: string)

  function ParseLine(schema: seq<Section>, st: State, raw: string): State {
    var line := Trim(raw);
    if line == "" || line[0] == '#' then st
    else if line[0] == '[' && line[|line| - 1] == ']' then
      State(st.values, line[1..|line| - 1])
    else
      var eq := Find(line, '=');
      if eq == |line| then st
      else
        var key, value := Trim(line[..eq]), Trim(line[eq + 1..]);
        var k := Lookup(schema, Home(st.section), key);
        if k.None? then st else State(st.values[(Home(st.section), key) := ParseValue(k.value, value)], st.section)
  }

  function ParseLines(schema: seq<Section>, st: State, lines: seq<string>): State
    decreases |lines|
  {
    if lines == [] then st else ParseLines(schema, ParseLine(schema, st, lines[0]), lines[1..])
  }

  method Parse(schema: seq<Section>, defaults: Values, content: string) returns (values: Values)
    ensures values == ParseLines(schema, State(defaults, ""), Lines(content)).values
  {
    hide ParseLine, Lines;
    var lines := Lines(content);
    var st := State(defaults, "");
    assert lines[0..] == lines;
    for i := 0 to |lines|
      invariant ParseLines(schema, State(defaults, ""), lines) == ParseLines(schema, st, lines[i..])
    {
      assert lines[i..][1..] == lines[i + 1..];
      st := ParseLine(schema, st, lines[i]);
    }
    values := st.values;
  }

  lemma {:induction false} ParseAppend(schema: seq<Section>, st: State, a: seq<string>, b: seq<string>)
    ensures ParseLines(schema, st, a + b) == ParseLines(schema, ParseLines(schema, st, a), b)
    decreases |a|
  {
    hide ParseLine;
    if a == [] {
      assert a + b == b;
    } else {
      ParseAppend(schema, ParseLine(schema, st, a[0]), a[1..], b);
      assert (a + b)[1..] == a[1..] + b;
    }
  }

  lemma ParseOne(schema: seq<Section>, st: State, line: string)
    ensures ParseLines(schema, st, [line]) == ParseLine(schema, st, line)
  {
    hide ParseLine;
    assert [line][1..] == [];
  }
}
