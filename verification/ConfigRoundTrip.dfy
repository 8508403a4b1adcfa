/**
 Printing a configuration and parsing the result: numbers and flags come back as they
 were, texts come back with their quotes, and an empty list is not written at all.
 */
module ConfigRoundTrip {
  import opened Basics
  import opened Config

  // ----- single lines -----

  lemma HeaderLine(schema: seq<Section>, st: State, name: string)
    ensures ParseLine(schema, st, "[" + name + "]") == State(st.values, name)
  {
    var line := "[" + name + "]";
    TrimTight(line);
    assert line[1..|line| - 1] == name;
  }

  lemma FieldLine(schema: seq<Section>, st: State, key: string, kind: Kind, value: string)
    requires GoodKey(key) && Tight(value) && Lookup(schema, Home(st.section), key) == Some(kind)
    ensures ParseLine(schema, st, key + " = " + value) ==
            State(st.values[(Home(st.section), key) := ParseValue(kind, value)], st.section)
  {
    hide ParseValue, Lookup, White, Trim;
    var line := key + " = " + value;
    TrimTight(line);
    assert line == (key + " ") + ['='] + (" " + value);
    FindAfter(key + " ", '=', " " + value);
    assert line[..|key| + 1] == key + " " && line[|key| + 2..] == " " + value;
    TrimTight(key);
    TrimTight(value);
  }

  lemma SkippedLines(schema: seq<Section>, st: State)
    ensures ParseLine(schema, st, "") == st
    ensures ParseLine(schema, st, "# Configuraci\U{F3}n Vex Ecosystem") == st
  {
    TrimTight("# Configuraci\U{F3}n Vex Ecosystem");
  }

  // ----- all the fields -----

  /** Every field of the schema has a value that fits it. */
  ghost predicate Conforms(s: Section, c: Values) {
    forall i :: 0 <= i < |s.fields| ==>
      (s.name, s.fields[i].key) in c && Fits(s.fields[i].kind, c[(s.name, s.fields[i].key)])
  }

  /** The printer leaves out empty lists. */
  predicate LeftOut(v: Value) { v.List? && v.names == [] }

  function FieldNames(section: string, fields: seq<Field>, c: Values): set<(string, string)> {
    set i | 0 <= i < |fields| && (section, fields[i].key) in c && !LeftOut(c[(section, fields[i].key)]) ::
      (section, fields[i].key)
  }

  /** values is values0 with the names of done read back from c. */
  ghost predicate ReadFrom(values0: Values, values: Values, done: set<(string, string)>, c: Values) {
    && values.Keys == values0.Keys + done && done <= c.Keys
    && (forall n :: n in values ==> values[n] == if n in done then ReadBack(c[n]) else values0[n])
  }

  ghost predicate KnownFields(schema: seq<Section>, section: string, fields: seq<Field>, c: Values) {
    forall i :: 0 <= i < |fields| ==>
      && GoodKey(fields[i].key) && Lookup(schema, section, fields[i].key) == Some(fields[i].kind)
      && (section, fields[i].key) in c && Fits(fields[i].kind, c[(section, fields[i].key)])
  }

  lemma {:induction false} FieldsParsed(schema: seq<Section>, st: State, fields: seq<Field>, c: Values)
    requires st.section != "" && KnownFields(schema, st.section, fields, c)
    ensures var st' := ParseLines(schema, st, FieldsLines(st.section, fields, c));
            st'.section == st.section && ReadFrom(st.values, st'.values, FieldNames(st.section, fields, c), c)
    decreases |fields|
  {
    hide GoodKey, Lookup, Fits, ParseLine, ParseLines, ReadBack, ShowValue, FieldLines, ReadFrom, LeftOut;
    if fields == [] {
      NothingParsed(schema, st, c);
      assert FieldNames(st.section, [], c) == {};
    } else {
      var f, n := fields[0], (st.section, fields[0].key);
      var here, rest := FieldLines(st.section, f, c), FieldsLines(st.section, fields[1..], c);
      ParseAppend(schema, st, here, rest);
      var st1 := ParseLines(schema, st, here);
      OneFieldParsed(schema, st, f, c);
      OneRead(st.values, n, c);
      NothingParsed(schema, st, c);
      FieldsParsed(schema, st1, fields[1..], c);
      NamesCons(st.section, fields, c);
      ReadTwice(st.values, st1.values, ParseLines(schema, st1, rest).values,
                if LeftOut(c[n]) then {} else {n}, FieldNames(st.section, fields[1..], c), c);
    }
  }

  lemma OneRead(values: Values, n: (string, string), c: Values)
    requires n in c
    ensures ReadFrom(values, values[n := ReadBack(c[n])], {n}, c)
  {
    hide ReadBack;
  }

  lemma OneFieldParsed(schema: seq<Section>, st: State, f: Field, c: Values)
    requires st.section != "" && GoodKey(f.key) && Lookup(schema, st.section, f.key) == Some(f.kind)
    requires (st.section, f.key) in c && Fits(f.kind, c[(st.section, f.key)])
    ensures var n := (st.section, f.key);
            ParseLines(schema, st, FieldLines(st.section, f, c)) ==
            if LeftOut(c[n]) then st else State(st.values[n := ReadBack(c[n])], st.section)
  {
    hide GoodKey, Lookup, Fits, ParseLine, ReadBack, ShowValue, ParseValue;
    var v := c[(st.section, f.key)];
    ShownIsTight(f.kind, v);
    ValueRoundTrip(f.kind, v);
    FieldLine(schema, st, f.key, f.kind, ShowValue(v));
    ParseOne(schema, st, f.key + " = " + ShowValue(v));
  }

  lemma NamesCons(section: string, fields: seq<Field>, c: Values)
    requires fields != [] && (section, fields[0].key) in c
    ensures var n := (section, fields[0].key);
            FieldNames(section, fields, c) == (if LeftOut(c[n]) then {} else {n}) + FieldNames(section, fields[1..], c)
  {
    var all, rest := FieldNames(section, fields, c), FieldNames(section, fields[1..], c);
    forall n | n in rest ensures n in all {
      var i :| 0 <= i < |fields[1..]| && (section, fields[1..][i].key) == n;
      assert fields[i + 1] == fields[1..][i];
    }
    forall n | n in all ensures n in rest || n == (section, fields[0].key) {
      var i :| 0 <= i < |fields| && (section, fields[i].key) == n;
      if i > 0 { assert fields[1..][i - 1] == fields[i]; }
    }
  }

  // ----- all the sections -----

  function SchemaNames(schema: seq<Section>, c: Values): set<(string, string)> {
    if schema == [] then {}
    else FieldNames(schema[0].name, schema[0].fields, c) + SchemaNames(schema[1..], c)
  }

  ghost predicate KnownSections(schema: seq<Section>, part: seq<Section>, c: Values) {
    forall i :: 0 <= i < |part| ==> part[i].name != "" && KnownFields(schema, part[i].name, part[i].fields, c)
  }

  lemma ReadTwice(v0: Values, v1: Values, v2: Values, a: set<(string, string)>, b: set<(string, string)>, c: Values)
    requires ReadFrom(v0, v1, a, c) && ReadFrom(v1, v2, b, c)
    ensures ReadFrom(v0, v2, a + b, c)
  {
    hide ReadBack;
  }

  lemma {:induction false} SectionsParsed(schema: seq<Section>, part: seq<Section>, st: State, c: Values)
    requires KnownSections(schema, part, c)
    ensures ReadFrom(st.values, ParseLines(schema, st, SchemaLines(part, c)).values, SchemaNames(part, c), c)
    decreases |part|
  {
    hide ParseLine, ParseLines, ReadFrom, KnownFields, FieldNames, FieldsLines;
    if part == [] {
      NothingParsed(schema, st, c);
    } else {
      var s := part[0];
      var head, body := ["[" + s.name + "]"], FieldsLines(s.name, s.fields, c);
      var gap, rest := if |part| == 1 then [] else [""], SchemaLines(part[1..], c);
      var st1 := State(st.values, s.name);
      HeaderLine(schema, st, s.name);
      ParseOne(schema, st, "[" + s.name + "]");
      FieldsParsed(schema, st1, s.fields, c);
      var st2 := ParseLines(schema, st1, body);
      SkippedLines(schema, st2);
      ParseOne(schema, st2, "");
      NothingParsed(schema, st2, c);
      SectionsParsed(schema, part[1..], st2, c);
      ParseAppend(schema, st, head, body);
      ParseAppend(schema, st, head + body, gap);
      ParseAppend(schema, st, head + body + gap, rest);
      ReadTwice(st.values, st2.values, ParseLines(schema, st2, rest).values,
                FieldNames(s.name, s.fields, c), SchemaNames(part[1..], c), c);
    }
  }

  lemma NothingParsed(schema: seq<Section>, st: State, c: Values)
    ensures ParseLines(schema, st, []) == st && ReadFrom(st.values, st.values, {}, c)
  {
  }

  // ----- lookups and lines of a good schema -----

  lemma {:induction false} KindOf(fields: seq<Field>, i: nat)
    requires i < |fields| && forall j, k :: 0 <= j < k < |fields| ==> fields[j].key != fields[k].key
    ensures FieldKind(fields, fields[i].key) == Some(fields[i].kind)
  {
    if i > 0 { KindOf(fields[1..], i - 1); }
  }

  lemma {:induction false} LookupOf(schema: seq<Section>, i: nat, key: string)
    requires i < |schema| && forall j, k :: 0 <= j < k < |schema| ==> schema[j].name != schema[k].name
    ensures Lookup(schema, schema[i].name, key) == FieldKind(schema[i].fields, key)
  {
    if i > 0 { LookupOf(schema[1..], i - 1, key); }
  }

  lemma GoodIsKnown(schema: seq<Section>, c: Values)
    requires GoodSchema(schema) && forall i :: 0 <= i < |schema| ==> Conforms(schema[i], c)
    ensures KnownSections(schema, schema, c)
  {
    hide GoodKey, Lookup, FieldKind, Fits;
    forall i | 0 <= i < |schema|
      ensures schema[i].name != "" && KnownFields(schema, schema[i].name, schema[i].fields, c)
    {
      assert GoodSection(schema[i]) && Conforms(schema[i], c);
      forall j | 0 <= j < |schema[i].fields|
        ensures Lookup(schema, schema[i].name, schema[i].fields[j].key) == Some(schema[i].fields[j].kind)
      {
        LookupOf(schema, i, schema[i].fields[j].key);
        KindOf(schema[i].fields, j);
      }
    }
  }

  ghost predicate AllPlain(lines: seq<string>) { forall i :: 0 <= i < |lines| ==> Plain(lines[i]) }

  lemma {:induction false} FieldsPlain(section: string, fields: seq<Field>, c: Values)
    requires forall i :: 0 <= i < |fields| ==> GoodKey(fields[i].key)
    requires forall i :: 0 <= i < |fields| ==>
      (section, fields[i].key) in c && Fits(fields[i].kind, c[(section, fields[i].key)])
    ensures AllPlain(FieldsLines(section, fields, c))
    decreases |fields|
  {
    hide Fits, ShowValue;
    if fields != [] {
      ShownIsTight(fields[0].kind, c[(section, fields[0].key)]);
      FieldsPlain(section, fields[1..], c);
    }
  }

  lemma {:induction false} SchemaPlain(schema: seq<Section>, c: Values)
    requires forall i :: 0 <= i < |schema| ==> GoodSection(schema[i]) && Conforms(schema[i], c)
    ensures AllPlain(SchemaLines(schema, c))
    decreases |schema|
  {
    hide GoodKey, Fits, FieldsLines;
    if schema != [] {
      assert GoodSection(schema[0]) && Conforms(schema[0], c);
      FieldsPlain(schema[0].name, schema[0].fields, c);
      SchemaPlain(schema[1..], c);
    }
  }

  // ----- the theorem -----

  ghost function Reparsed(schema: seq<Section>, defaults: Values, c: Values): Values {
    ParseLines(schema, State(defaults, ""), Lines(ToToml(schema, c))).values
  }

  /** For every good schema and conforming configuration: what is printed is read back
      as ReadBack says, and every other field has its default. */
  lemma TomlRoundTrip(schema: seq<Section>, defaults: Values, c: Values)
    requires GoodSchema(schema) && forall i :: 0 <= i < |schema| ==> Conforms(schema[i], c)
    ensures ReadFrom(defaults, Reparsed(schema, defaults, c), SchemaNames(schema, c), c)
  {
    hide ParseLine, ParseLines, ReadFrom, SchemaLines, GoodSection, Conforms, Lines, Unlines, KnownSections,
         SchemaNames, Plain;
    var head := ["# Configuraci\U{F3}n Vex Ecosystem", ""];
    var body, st := SchemaLines(schema, c), State(defaults, "");
    GoodIsKnown(schema, c);
    SchemaPlain(schema, c);
    HeadPlain();
    LinesOfUnlines(head + body);
    ParseAppend(schema, st, head, body);
    SkippedLines(schema, st);
    ParseOne(schema, st, "");
    ParseOne(schema, st, "# Configuraci\U{F3}n Vex Ecosystem");
    ParseAppend(schema, st, ["# Configuraci\U{F3}n Vex Ecosystem"], [""]);
    assert head == ["# Configuraci\U{F3}n Vex Ecosystem"] + [""];
    SectionsParsed(schema, schema, st, c);
  }

  lemma HeadPlain()
    ensures Plain("# Configuraci\U{F3}n Vex Ecosystem") && Plain("")
  {
  }

  lemma {:induction false} SchemaNamesHave(schema: seq<Section>, c: Values, i: nat, j: nat)
    requires i < |schema| && j < |schema[i].fields| && (schema[i].name, schema[i].fields[j].key) in c
    requires !LeftOut(c[(schema[i].name, schema[i].fields[j].key)])
    ensures (schema[i].name, schema[i].fields[j].key) in SchemaNames(schema, c)
  {
    if i > 0 { SchemaNamesHave(schema[1..], c, i - 1, j); }
  }

  /** Field by field: numbers and flags come back unchanged, a text wrapped in one pair
      of quotes, and a list of clean names with a quote at either end of the list. */
  lemma FieldRoundTrip(schema: seq<Section>, defaults: Values, c: Values, i: nat, j: nat)
    requires GoodSchema(schema) && forall i :: 0 <= i < |schema| ==> Conforms(schema[i], c)
    requires i < |schema| && j < |schema[i].fields|
    ensures var n, kind := (schema[i].name, schema[i].fields[j].key), schema[i].fields[j].kind;
            var back := Reparsed(schema, defaults, c);
            && n in c
            && (kind.NumberField? || kind.FlagField? ==> n in back && back[n] == c[n])
            && (kind.TextField? ==>
                  n in back && c[n].Text? && back[n] == Text("\"" + c[n].text + "\"") && back[n] != c[n])
            && (kind.NamesField? ==> c[n].List?)
            && (kind.NamesField? && CleanNames(c[n].names) ==>
                n in back && back[n] == List(QuoteEnds(c[n].names)) && back[n] != c[n])
  {
    hide ParseLine, ParseLines, GoodSection, Lines, ToToml, SchemaNames, QuoteEnds, CleanName, Names, Split, Join;
    TomlRoundTrip(schema, defaults, c);
    assert Conforms(schema[i], c);
    var n := (schema[i].name, schema[i].fields[j].key);
    if !LeftOut(c[n]) { SchemaNamesHave(schema, c, i, j); }
    if c[n].List? && CleanNames(c[n].names) { ListReadBack(c[n].names); }
  }

  lemma {:induction false} SchemaNamesAreWritten(schema: seq<Section>, c: Values, n: (string, string))
    requires n in SchemaNames(schema, c)
    ensures n in c && !LeftOut(c[n])
  {
    if n !in FieldNames(schema[0].name, schema[0].fields, c) { SchemaNamesAreWritten(schema[1..], c, n); }
  }

  /** An empty list is not printed, so it comes back as the default list. */
  lemma EmptyListIsLost(schema: seq<Section>, defaults: Values, c: Values, n: (string, string))
    requires GoodSchema(schema) && forall i :: 0 <= i < |schema| ==> Conforms(schema[i], c)
    requires n in c && c[n] == List([]) && n in defaults
    ensures n in Reparsed(schema, defaults, c) && Reparsed(schema, defaults, c)[n] == defaults[n]
  {
    hide GoodSchema, Conforms, SchemaNames, Reparsed;
    TomlRoundTrip(schema, defaults, c);
    if n in SchemaNames(schema, c) { SchemaNamesAreWritten(schema, c, n); }
  }

  /** What is printed: a comment, an empty line, and the section with its field. */
  lemma PrintedField(section: string, key: string, n: nat)
    ensures ToToml([Section(section, [Field(key, NumberField(n, 0))])], map[(section, key) := Number(n)]) ==
            "# Configuraci\U{F3}n Vex Ecosystem\n\n[" + section + "]\n" + key + " = " + Show(n) + "\n"
  {
    hide Show, Unlines;
    var f, c: Values := Field(key, NumberField(n, 0)), map[(section, key) := Number(n)];
    var s := Section(section, [f]);
    assert [f][1..] == [] && [s][1..] == [];
    assert FieldsLines(section, [f], c) == [key + " = " + Show(n)];
    var lines := ["[" + section + "]", key + " = " + Show(n)];
    assert SchemaLines([s], c) == lines;
    UnlinesTwo(lines[0], lines[1]);
    UnlinesPush("", Unlines(lines), lines);
    UnlinesPush("# Configuraci\U{F3}n Vex Ecosystem", Unlines([""] + lines), [""] + lines);
    assert ["# Configuraci\U{F3}n Vex Ecosystem", ""] + lines ==
             ["# Configuraci\U{F3}n Vex Ecosystem"] + ([""] + lines);
  }

  lemma UnlinesPush(line: string, rest: string, lines: seq<string>)
    requires rest == Unlines(lines)
    ensures Unlines([line] + lines) == line + "\n" + rest
  {
    assert ([line] + lines)[1..] == lines;
  }

  lemma UnlinesTwo(a: string, b: string)
    ensures Unlines([a, b]) == a + "\n" + b + "\n"
  {
    UnlinesPush(b, "", []);
    UnlinesPush(a, Unlines([b]), [b]);
    assert [a] + [b] == [a, b] && [b] + [] == [b];
  }

  // ----- the table of the program -----

  const U8_MAX: nat := 0xFF
  const U32_MAX: nat := 0xFFFF_FFFF
  const U64_MAX: nat := 0xFFFF_FFFF_FFFF_FFFF

  predicate Letter(c: char) { 'a' <= c <= 'z' || c == '_' || c == '\U{F3}' }

  lemma WordIsGood(key: string)
    requires key != "" && forall i :: 0 <= i < |key| ==> Letter(key[i])
    ensures GoodKey(key) && Plain(key)
  {
  }

  function General(): Section {
    Section("general", [
      Field("nombre", TextField), Field("versi\U{F3}n", TextField), Field("autor", TextField),
      Field("descripci\U{F3}n", TextField), Field("directorio_base", TextField)])
  }

  lemma GeneralKeys()
    ensures forall i :: 0 <= i < |General().fields| ==> GoodKey(General().fields[i].key)
  {
    hide GoodKey;
    WordIsGood("nombre");
    WordIsGood("versi\U{F3}n");
    WordIsGood("autor");
    WordIsGood("descripci\U{F3}n");
    WordIsGood("directorio_base");
  }

  lemma GeneralIsGood()
    ensures GoodSection(General())
  {
    hide GoodKey;
    GeneralKeys();
    WordIsGood("general");
  }

  function Language(): Section {
    Section("language", [
      Field("dialecto", TextField), Field("backend", TextField), Field("optimizaciones", FlagField(true)),
      Field("debug_info", FlagField(false)), Field("diagramas", FlagField(false))])
  }

  lemma LanguageKeys()
    ensures forall i :: 0 <= i < |Language().fields| ==> GoodKey(Language().fields[i].key)
  {
    hide GoodKey;
    WordIsGood("dialecto");
    WordIsGood("backend");
    WordIsGood("optimizaciones");
    WordIsGood("debug_info");
    WordIsGood("diagramas");
  }

  lemma LanguageIsGood()
    ensures GoodSection(Language())
  {
    hide GoodKey;
    LanguageKeys();
    WordIsGood("language");
  }

  function Runtime(): Section {
    Section("runtime", [
      Field("modo", TextField), Field("jit_threshold", NumberField(U32_MAX, 1000)),
      Field("max_memory_mb", NumberField(U32_MAX, 2048)), Field("gc_generation", NumberField(U8_MAX, 2)),
      Field("stack_size_mb", NumberField(U32_MAX, 64)), Field("max_threads", NumberField(U32_MAX, 8)),
      Field("scheduler", TextField)])
  }

  lemma RuntimeKeys()
    ensures forall i :: 0 <= i < |Runtime().fields| ==> GoodKey(Runtime().fields[i].key)
  {
    hide GoodKey;
    WordIsGood("modo");
    WordIsGood("jit_threshold");
    WordIsGood("max_memory_mb");
    WordIsGood("gc_generation");
    WordIsGood("stack_size_mb");
    WordIsGood("max_threads");
    WordIsGood("scheduler");
  }

  lemma RuntimeIsGood()
    ensures GoodSection(Runtime())
  {
    hide GoodKey;
    RuntimeKeys();
    WordIsGood("runtime");
  }

  function Distributed(): Section {
    Section("distributed", [
      Field("habilitado", FlagField(true)), Field("protocolo", TextField), Field("autenticaci\U{F3}n", TextField),
      Field("discovery_timeout", NumberField(U32_MAX, 30)), Field("max_connections", NumberField(U32_MAX, 100)),
      Field("heartbeat_interval", NumberField(U32_MAX, 60))])
  }

  lemma DistributedKeys()
    ensures forall i :: 0 <= i < |Distributed().fields| ==> GoodKey(Distributed().fields[i].key)
  {
    hide GoodKey;
    WordIsGood("habilitado");
    WordIsGood("protocolo");
    WordIsGood("autenticaci\U{F3}n");
    WordIsGood("discovery_timeout");
    WordIsGood("max_connections");
    WordIsGood("heartbeat_interval");
  }

  lemma DistributedIsGood()
    ensures GoodSection(Distributed())
  {
    hide GoodKey;
    DistributedKeys();
    WordIsGood("distributed");
  }

  function Debugging(): Section {
    Section("debugging", [
      Field("habilitado", FlagField(true)), Field("nivel", TextField), Field("archivo", TextField),
      Field("formato", TextField), Field("profiler_enabled", FlagField(false))])
  }

  lemma DebuggingKeys()
    ensures forall i :: 0 <= i < |Debugging().fields| ==> GoodKey(Debugging().fields[i].key)
  {
    hide GoodKey;
    WordIsGood("habilitado");
    WordIsGood("nivel");
    WordIsGood("archivo");
    WordIsGood("formato");
    WordIsGood("profiler_enabled");
  }

  lemma DebuggingIsGood()
    ensures GoodSection(Debugging())
  {
    hide GoodKey;
    DebuggingKeys();
    WordIsGood("debugging");
  }

  function Plugins(): Section {
    Section("plugins", [
      Field("habilitados", NamesField), Field("directorio", TextField), Field("auto_load", FlagField(true)),
      Field("debug_mode", FlagField(false))])
  }

  lemma PluginsKeys()
    ensures forall i :: 0 <= i < |Plugins().fields| ==> GoodKey(Plugins().fields[i].key)
  {
    hide GoodKey;
    WordIsGood("habilitados");
    WordIsGood("directorio");
    WordIsGood("auto_load");
    WordIsGood("debug_mode");
  }

  lemma PluginsIsGood()
    ensures GoodSection(Plugins())
  {
    hide GoodKey;
    PluginsKeys();
    WordIsGood("plugins");
  }

  function Benchmarking(): Section {
    Section("benchmarking", [
      Field("habilitado", FlagField(true)), Field("directorio", TextField), Field("formato", TextField),
      Field("incluir_interp", FlagField(true)), Field("incluir_jit", FlagField(true)),
      Field("incluir_aot", FlagField(false))])
  }

  lemma BenchmarkingKeys()
    ensures forall i :: 0 <= i < |Benchmarking().fields| ==> GoodKey(Benchmarking().fields[i].key)
  {
    hide GoodKey;
    WordIsGood("habilitado");
    WordIsGood("directorio");
    WordIsGood("formato");
    WordIsGood("incluir_interp");
    WordIsGood("incluir_jit");
    WordIsGood("incluir_aot");
  }

  lemma BenchmarkingIsGood()
    ensures GoodSection(Benchmarking())
  {
    hide GoodKey;
    BenchmarkingKeys();
    WordIsGood("benchmarking");
  }

  function Testing(): Section {
    Section("testing", [
      Field("habilitado", FlagField(true)), Field("rutas", NamesField), Field("patrones", NamesField),
      Field("timeout_segundos", NumberField(U32_MAX, 300)), Field("verbose", FlagField(false)),
      Field("parallel", FlagField(true))])
  }

  lemma TestingKeys()
    ensures forall i :: 0 <= i < |Testing().fields| ==> GoodKey(Testing().fields[i].key)
  {
    hide GoodKey;
    WordIsGood("habilitado");
    WordIsGood("rutas");
    WordIsGood("patrones");
    WordIsGood("timeout_segundos");
    WordIsGood("verbose");
    WordIsGood("parallel");
  }

  lemma TestingIsGood()
    ensures GoodSection(Testing())
  {
    hide GoodKey;
    TestingKeys();
    WordIsGood("testing");
  }

  function Logging(): Section {
    Section("logging", [
      Field("nivel", TextField), Field("formato", TextField), Field("salida", TextField),
      Field("colores", FlagField(true)), Field("timestamps", FlagField(true))])
  }

  lemma LoggingKeys()
    ensures forall i :: 0 <= i < |Logging().fields| ==> GoodKey(Logging().fields[i].key)
  {
    hide GoodKey;
    WordIsGood("nivel");
    WordIsGood("formato");
    WordIsGood("salida");
    WordIsGood("colores");
    WordIsGood("timestamps");
  }

  lemma LoggingIsGood()
    ensures GoodSection(Logging())
  {
    hide GoodKey;
    LoggingKeys();
    WordIsGood("logging");
  }

  function Security(): Section {
    Section("security", [
      Field("pqc_habilitado", FlagField(true)), Field("encriptacion_habilitada", FlagField(true)),
      Field("integridad_habilitada", FlagField(true)),
      Field("integridad_check_interval_secs", NumberField(U32_MAX, 300)),
      Field("max_fallos_auths", NumberField(U32_MAX, 5)), Field("session_timeout_secs", NumberField(U64_MAX, 86400))])
  }

  lemma SecuritySwitches()
    ensures GoodKey("pqc_habilitado") && GoodKey("encriptacion_habilitada") && GoodKey("integridad_habilitada")
  {
    hide GoodKey;
    WordIsGood("pqc_habilitado");
    WordIsGood("encriptacion_habilitada");
    WordIsGood("integridad_habilitada");
  }

  lemma SecurityNumbers()
    ensures GoodKey("integridad_check_interval_secs") && GoodKey("max_fallos_auths") && GoodKey("session_timeout_secs")
  {
    hide GoodKey;
    WordIsGood("integridad_check_interval_secs");
    WordIsGood("max_fallos_auths");
    WordIsGood("session_timeout_secs");
  }

  lemma SecurityKeys()
    ensures forall i :: 0 <= i < |Security().fields| ==> GoodKey(Security().fields[i].key)
  {
    hide GoodKey;
    SecuritySwitches();
    SecurityNumbers();
  }

  lemma SecurityIsGood()
    ensures GoodSection(Security())
  {
    hide GoodKey;
    SecurityKeys();
    WordIsGood("security");
  }

  function VexSchema(): seq<Section> {
    [General(), Language(), Runtime(), Distributed(), Debugging(),
     Plugins(), Benchmarking(), Testing(), Logging(), Security()]
  }

  lemma VexSchemaIsGood()
    ensures GoodSchema(VexSchema())
  {
    hide GoodSection;
    GeneralIsGood();
    LanguageIsGood();
    RuntimeIsGood();
    DistributedIsGood();
    DebuggingIsGood();
    PluginsIsGood();
    BenchmarkingIsGood();
    TestingIsGood();
    LoggingIsGood();
    SecurityIsGood();
  }

  /** The table of the program keeps the promise for each of its fields. */
  lemma VexRoundTrip(defaults: Values, c: Values, i: nat, j: nat)
    requires forall i :: 0 <= i < |VexSchema()| ==> Conforms(VexSchema()[i], c)
    requires i < |VexSchema()| && j < |VexSchema()[i].fields|
    ensures var s, f := VexSchema()[i], VexSchema()[i].fields[j];
            var n, back := (s.name, f.key), Reparsed(VexSchema(), defaults, c);
            && n in c
            && (f.kind.NumberField? || f.kind.FlagField? ==> n in back && back[n] == c[n])
            && (f.kind.TextField? ==> n in back && c[n].Text? && back[n] == Text("\"" + c[n].text + "\""))
            && (f.kind.NamesField? ==> c[n].List?)
            && (f.kind.NamesField? && CleanNames(c[n].names) ==> n in back && back[n] == List(QuoteEnds(c[n].names)))
  {
    hide GoodSchema, Conforms, Reparsed, VexSchema, CleanNames, QuoteEnds;
    VexSchemaIsGood();
    FieldRoundTrip(VexSchema(), defaults, c, i, j);
  }
}
