/**
 What the configuration parser makes of every text: which lines are headers, assignments
 or ignored, whatever blanks they hold, and which of several assignments counts.
 */
module ConfigLines {
  import opened Basics
  import opened Config

  // ----- trimming -----

  predicate AllWhite(s: string) { forall c :: c in s ==> White(c) }

  lemma {:induction false} TrimStartDrops(a: string, s: string)
    requires AllWhite(a)
    ensures TrimStart(a + s) == TrimStart(s)
  {
    hide White;
    if a == "" {
      assert a + s == s;
    } else {
      assert (a + s)[1..] == a[1..] + s;
      TrimStartDrops(a[1..], s);
    }
  }

  lemma {:induction false} TrimEndDrops(s: string, b: string)
    requires AllWhite(b)
    ensures TrimEnd(s + b) == TrimEnd(s)
  {
    hide White;
    if b == "" {
      assert s + b == s;
    } else {
      assert (s + b)[..|s + b| - 1] == s + b[..|b| - 1];
      TrimEndDrops(s, b[..|b| - 1]);
    }
  }

  lemma {:induction false} TrimStartSplits(s: string) returns (a: string)
    ensures AllWhite(a) && s == a + TrimStart(s)
    ensures TrimStart(s) == "" || !White(TrimStart(s)[0])
  {
    hide White;
    a := "";
    if s != "" && White(s[0]) {
      a := TrimStartSplits(s[1..]);
      a := [s[0]] + a;
    }
  }

  lemma {:induction false} TrimEndSplits(s: string) returns (b: string)
    ensures AllWhite(b) && s == TrimEnd(s) + b
    ensures TrimEnd(s) == "" || !White(TrimEnd(s)[|TrimEnd(s)| - 1])
  {
    hide White;
    b := "";
    if s != "" && White(s[|s| - 1]) {
      b := TrimEndSplits(s[..|s| - 1]);
      b := b + [s[|s| - 1]];
    }
  }

  /** Trimming finds what stands between the white ends of a text. */
  lemma TrimIs(a: string, t: string, b: string)
    requires AllWhite(a) && AllWhite(b) && (t == "" || Tight(t))
    ensures Trim(a + t + b) == t
  {
    hide White;
    assert a + t + b == a + (t + b);
    TrimStartDrops(a, t + b);
    if t == "" {
      assert t + b == b + "" && "" + b == b;
      TrimStartDrops(b, "");
    } else {
      TrimEndDrops(t, b);
    }
  }

  lemma TrimSplits(s: string) returns (a: string, b: string)
    ensures AllWhite(a) && AllWhite(b) && s == a + Trim(s) + b
    ensures Trim(s) == "" || Tight(Trim(s))
  {
    hide White, AllWhite, TrimStart, TrimEnd;
    a := TrimStartSplits(s);
    b := TrimEndSplits(TrimStart(s));
  }

  /** Blanks at either end make no difference. */
  lemma TrimPads(a: string, s: string, b: string)
    requires AllWhite(a) && AllWhite(b)
    ensures Trim(a + s + b) == Trim(s)
  {
    hide White, Trim, Tight;
    var x, y := TrimSplits(s);
    assert a + s + b == (a + x) + Trim(s) + (y + b);
    TrimIs(a + x, Trim(s), y + b);
  }

  // ----- one line -----

  datatype Form = Ignored | Header(name: string) | Assignment(key: string, value: string)

  ghost predicate IsComment(raw: string) { exists a, x :: AllWhite(a) && raw == a + "#" + x }

  ghost predicate IsHeader(raw: string, name: string) {
    exists a, b :: AllWhite(a) && AllWhite(b) && raw == a + ("[" + name + "]") + b
  }

  ghost predicate Assigns(raw: string, key: string, value: string) {
    exists a, b :: '=' !in a && raw == a + "=" + b && key == Trim(a) && value == Trim(b)
  }

  /** What a line is: blank or a comment; a header; text before and after the first equals
      sign, trimmed; or none of these. */
  ghost predicate Reads(raw: string, form: Form) {
    match form
    case Ignored =>
      AllWhite(raw) || IsComment(raw) || ('=' !in raw && forall name :: !IsHeader(raw, name))
    case Header(name) => IsHeader(raw, name)
    case Assignment(key, value) =>
      Assigns(raw, key, value) && !IsComment(raw) && forall name :: !IsHeader(raw, name)
  }

  /** What a line does: a header changes the section; an assignment of a known key sets
      the field of that section, which is general before any header. */
  function Effect(schema: seq<Section>, st: State, form: Form): State {
    match form
    case Ignored => st
    case Header(name) => State(st.values, name)
    case Assignment(key, value) =>
      var section := if st.section == "" then "general" else st.section;
      var k := Lookup(schema, section, key);
      if k.None? then st else State(st.values[(section, key) := ParseValue(k.value, value)], st.section)
  }

  lemma CommentIs(raw: string)
    ensures IsComment(raw) <==> Trim(raw) != "" && Trim(raw)[0] == '#'
  {
    hide White, Trim, TrimEnd;
    if a, x :| AllWhite(a) && raw == a + "#" + x {
      var b := TrimEndSplits(x);
      assert raw == a + ("#" + TrimEnd(x)) + b;
      NotWhiteMarks();
      TrimIs(a, "#" + TrimEnd(x), b);
    }
    if Trim(raw) != "" && Trim(raw)[0] == '#' {
      var a, b := TrimSplits(raw);
      assert raw == a + "#" + (Trim(raw)[1..] + b);
    }
  }

  lemma NothingIsWhite()
    ensures AllWhite("")
  {
  }

  lemma NotWhiteMarks()
    ensures !White('#') && !White('[') && !White(']') && !White('=')
  {
  }

  lemma HeaderIs(raw: string, name: string)
    ensures IsHeader(raw, name) <==> Trim(raw) == "[" + name + "]"
  {
    hide White;
    if a, b :| AllWhite(a) && AllWhite(b) && raw == a + ("[" + name + "]") + b {
      NotWhiteMarks();
      TrimIs(a, "[" + name + "]", b);
    }
    if Trim(raw) == "[" + name + "]" {
      var a, b := TrimSplits(raw);
      assert raw == a + ("[" + name + "]") + b;
    }
  }

  lemma BlankIs(raw: string)
    ensures AllWhite(raw) <==> Trim(raw) == ""
  {
    hide White;
    if AllWhite(raw) {
      assert raw == raw + "" + "";
      TrimIs(raw, "", "");
    }
    if Trim(raw) == "" { var a, b := TrimSplits(raw); }
  }

  /** A bracket on either side is a header. */
  lemma BracketsMakeHeader(raw: string)
    requires Trim(raw) != "" && Trim(raw)[0] == '[' && Trim(raw)[|Trim(raw)| - 1] == ']'
    ensures IsHeader(raw, Trim(raw)[1..|Trim(raw)| - 1])
  {
    var line := Trim(raw);
    assert line == "[" + line[1..|line| - 1] + "]";
    HeaderIs(raw, line[1..|line| - 1]);
  }

  /** The trimmed line is the text before the equals sign without its blanks in front, the
      sign, and the text after it without its blanks at the end. */
  lemma AssignmentTrims(a: string, b: string)
    ensures Trim(a + "=" + b) == TrimStart(a) + "=" + TrimEnd(b)
    ensures Trim(TrimStart(a)) == Trim(a) && Trim(TrimEnd(b)) == Trim(b)
  {
    hide White, AllWhite, Trim, TrimStart, TrimEnd;
    NotWhiteMarks();
    var x := TrimStartSplits(a);
    var y := TrimEndSplits(b);
    var line := TrimStart(a) + "=" + TrimEnd(b);
    assert a + "=" + b == x + line + y;
    TrimIs(x, line, y);
    NothingIsWhite();
    assert a == x + TrimStart(a) + "" && b == "" + TrimEnd(b) + y;
    TrimPads(x, TrimStart(a), "");
    TrimPads("", TrimEnd(b), y);
  }

  lemma {:induction false} TrimStartHas(a: string, c: char)
    requires c !in a
    ensures c !in TrimStart(a)
  {
    if a != "" && White(a[0]) { TrimStartHas(a[1..], c); }
  }

  /** Every line has a form, and the parser does what the form says. */
  lemma LineHasEffect(schema: seq<Section>, st: State, raw: string, form: Form)
    requires Reads(raw, form)
    ensures ParseLine(schema, st, raw) == Effect(schema, st, form)
  {
    hide White, AllWhite, IsComment, IsHeader, Trim, Lookup, ParseValue, Find;
    BlankIs(raw);
    CommentIs(raw);
    var line := Trim(raw);
    match form
    case Ignored =>
      if !AllWhite(raw) && !IsComment(raw) { NothingAssigned(schema, st, raw); }
    case Header(name) =>
      HeaderIs(raw, name);
      assert line[1..|line| - 1] == name;
    case Assignment(key, value) =>
      var a, b :| '=' !in a && raw == a + "=" + b && key == Trim(a) && value == Trim(b);
      AssignmentTrims(a, b);
      TrimStartHas(a, '=');
      FindAfter(TrimStart(a), '=', TrimEnd(b));
      assert line[..|TrimStart(a)|] == TrimStart(a) && line[|TrimStart(a)| + 1..] == TrimEnd(b);
      if line[0] == '[' && line[|line| - 1] == ']' { BracketsMakeHeader(raw); }
  }

  lemma NothingAssigned(schema: seq<Section>, st: State, raw: string)
    requires '=' !in raw && forall name :: !IsHeader(raw, name)
    ensures ParseLine(schema, st, raw) == st
  {
    hide White, IsHeader, Trim, Lookup, ParseValue, Find;
    var line := Trim(raw);
    var a, b := TrimSplits(raw);
    assert '=' !in line;
    FindNone(line, '=');
    if line != "" && line[0] == '[' && line[|line| - 1] == ']' { BracketsMakeHeader(raw); }
  }

  lemma EveryLineHasAForm(raw: string) returns (form: Form)
    ensures Reads(raw, form)
  {
    hide White, AllWhite, IsComment, IsHeader, Trim;
    if AllWhite(raw) || IsComment(raw) { return Ignored; }
    if name :| IsHeader(raw, name) { return Header(name); }
    if '=' !in raw { return Ignored; }
    var a, b := SplitAtEquals(raw);
    form := Assignment(Trim(a), Trim(b));
  }

  lemma {:induction false} SplitAtEquals(raw: string) returns (a: string, b: string)
    requires '=' in raw
    ensures '=' !in a && raw == a + "=" + b
  {
    if raw[0] == '=' { return "", raw[1..]; }
    assert raw == [raw[0]] + raw[1..];
    a, b := SplitAtEquals(raw[1..]);
    a := [raw[0]] + a;
  }

  /** Blanks, tabs and line ends are white, and no visible ASCII character is. */
  lemma AsciiWhite(c: char)
    requires c < '\U{80}'
    ensures White(c) <==> c == ' ' || '\t' <= c <= '\r'
    ensures '!' <= c <= '~' ==> !White(c)
  {
  }

  /** A kind that is found is that of a field of the section. */
  lemma {:induction false} LookupFinds(schema: seq<Section>, section: string, key: string)
    requires Lookup(schema, section, key).Some?
    ensures exists i, j ::
              && 0 <= i < |schema| && 0 <= j < |schema[i].fields|
              && schema[i].name == section && schema[i].fields[j] == Field(key, Lookup(schema, section, key).value)
  {
    hide FieldKind;
    if schema[0].name == section {
      var j := KindFound(schema[0].fields, key);
      assert schema[0].fields[j] == Field(key, Lookup(schema, section, key).value);
    } else {
      LookupFinds(schema[1..], section, key);
      var i, j :| 0 <= i < |schema[1..]| && 0 <= j < |schema[1..][i].fields| && schema[1..][i].name == section
                  && schema[1..][i].fields[j] == Field(key, Lookup(schema[1..], section, key).value);
      assert schema[i + 1] == schema[1..][i];
    }
  }

  lemma {:induction false} KindFound(fields: seq<Field>, key: string) returns (j: nat)
    requires FieldKind(fields, key).Some?
    ensures j < |fields| && fields[j] == Field(key, FieldKind(fields, key).value)
  {
    j := 0;
    if fields[0].key != key {
      j := KindFound(fields[1..], key);
      j := j + 1;
    }
  }

  // ----- whole texts -----

  /** The text up to a line break is a line, without a carriage return at its end. */
  lemma LinesCons(a: string, b: string)
    requires '\n' !in a
    ensures Lines(a + "\n" + b) == [DropReturn(a)] + Lines(b)
    ensures a != "" ==> Lines(a) == [DropReturn(a)]
  {
    hide Find, DropReturn;
    FindAfter(a, '\n', b);
    var s := a + "\n" + b;
    assert s == a + ['\n'] + b;
    assert s[..|a|] == a && s[|a| + 1..] == b;
    FindNone(a, '\n');
  }

  ghost predicate ReadAs(lines: seq<string>, forms: seq<Form>) {
    |forms| == |lines| && forall i :: 0 <= i < |lines| ==> Reads(lines[i], forms[i])
  }

  /** The section that line i stands in: that of the last header before it. */
  function SectionAt(forms: seq<Form>, i: nat): string
    requires i <= |forms|
  {
    if i == 0 then "" else if forms[i - 1].Header? then forms[i - 1].name else SectionAt(forms, i - 1)
  }

  /** Line i assigns to a field: the key is known in the section, which is general before
      any header. */
  predicate Sets(schema: seq<Section>, forms: seq<Form>, i: nat, section: string, key: string)
    requires i < |forms|
  {
    && forms[i].Assignment? && forms[i].key == key
    && section == (if SectionAt(forms, i) == "" then "general" else SectionAt(forms, i))
    && Lookup(schema, section, key).Some?
  }

  ghost predicate SetsNoneFrom(schema: seq<Section>, forms: seq<Form>, from: nat, n: nat, section: string, key: string)
    requires n <= |forms|
  {
    forall j :: from <= j < n ==> !Sets(schema, forms, j, section, key)
  }

  ghost predicate SetsLast(schema: seq<Section>, forms: seq<Form>, i: nat, n: nat, section: string, key: string)
    requires i < n <= |forms|
  {
    Sets(schema, forms, i, section, key) && SetsNoneFrom(schema, forms, i + 1, n, section, key)
  }

  /** A field has the value of the last line that assigns to it, or its default. */
  ghost predicate LastCounts(schema: seq<Section>, defaults: Values, values: Values, forms: seq<Form>, n: nat,
                             section: string, key: string)
    requires n <= |forms|
  {
    && (forall i :: 0 <= i < n && SetsLast(schema, forms, i, n, section, key) ==>
          && (section, key) in values
          && values[(section, key)] == ParseValue(Lookup(schema, section, key).value, forms[i].value))
    && (SetsNoneFrom(schema, forms, 0, n, section, key) ==>
          && ((section, key) in values <==> (section, key) in defaults)
          && ((section, key) in defaults ==> values[(section, key)] == defaults[(section, key)]))
  }

  lemma {:induction false} StateAfter(schema: seq<Section>, defaults: Values, lines: seq<string>, forms: seq<Form>,
                                      n: nat, section: string, key: string)
    requires n <= |lines| && ReadAs(lines, forms)
    ensures var st := ParseLines(schema, State(defaults, ""), lines[..n]);
            && st.section == SectionAt(forms, n)
            && LastCounts(schema, defaults, st.values, forms, n, section, key)
  {
    hide Reads, Lookup, ParseValue, ParseLine, ParseLines, Sets, LastCounts, Effect;
    if n == 0 {
      NothingRead(schema, State(defaults, ""));
      NothingSet(schema, defaults, forms, section, key);
      assert lines[..0] == [];
    } else {
      StateAfter(schema, defaults, lines, forms, n - 1, section, key);
      var st := ParseLines(schema, State(defaults, ""), lines[..n - 1]);
      assert lines[..n] == lines[..n - 1] + [lines[n - 1]];
      ParseAppend(schema, State(defaults, ""), lines[..n - 1], [lines[n - 1]]);
      ParseOne(schema, st, lines[n - 1]);
      LineHasEffect(schema, st, lines[n - 1], forms[n - 1]);
      OneMore(schema, defaults, st, forms, n - 1, section, key);
    }
  }

  lemma NothingSet(schema: seq<Section>, defaults: Values, forms: seq<Form>, section: string, key: string)
    ensures LastCounts(schema, defaults, defaults, forms, 0, section, key)
  {
  }

  lemma NothingRead(schema: seq<Section>, st: State)
    ensures ParseLines(schema, st, []) == st
  {
  }

  lemma OneMore(schema: seq<Section>, defaults: Values, st: State, forms: seq<Form>, i: nat, section: string,
                key: string)
    requires i < |forms| && st.section == SectionAt(forms, i)
    requires LastCounts(schema, defaults, st.values, forms, i, section, key)
    ensures var st' := Effect(schema, st, forms[i]);
            && st'.section == SectionAt(forms, i + 1)
            && LastCounts(schema, defaults, st'.values, forms, i + 1, section, key)
  {
    hide Lookup, ParseValue, Effect, Sets;
    EffectOn(schema, st, forms, i, section, key);
    var n := i + 1;
    if Sets(schema, forms, i, section, key) {
      assert !SetsNoneFrom(schema, forms, 0, n, section, key);
      forall k | 0 <= k < i ensures !SetsLast(schema, forms, k, n, section, key) {}
    } else {
      assert SetsNoneFrom(schema, forms, 0, n, section, key) ==> SetsNoneFrom(schema, forms, 0, i, section, key);
      forall k | 0 <= k < n && SetsLast(schema, forms, k, n, section, key)
        ensures k < i && SetsLast(schema, forms, k, i, section, key)
      {
      }
    }
  }

  lemma EffectOn(schema: seq<Section>, st: State, forms: seq<Form>, i: nat, section: string, key: string)
    requires i < |forms| && st.section == SectionAt(forms, i)
    ensures var values, values' := st.values, Effect(schema, st, forms[i]).values;
            var n := (section, key);
            if Sets(schema, forms, i, section, key) then
              n in values' && values'[n] == ParseValue(Lookup(schema, section, key).value, forms[i].value)
            else (n in values' <==> n in values) && (n in values ==> values'[n] == values[n])
    ensures Effect(schema, st, forms[i]).section == SectionAt(forms, i + 1)
  {
    hide Lookup, ParseValue;
  }

  /** The parser, on every text. */
  method ParseText(schema: seq<Section>, defaults: Values, content: string)
    returns (values: Values, ghost forms: seq<Form>)
    ensures ReadAs(Lines(content), forms)
    ensures forall section, key :: LastCounts(schema, defaults, values, forms, |forms|, section, key)
  {
    hide Reads, LastCounts, ParseLines, Lines;
    values := Parse(schema, defaults, content);
    ghost var lines := Lines(content);
    forms := [];
    for i := 0 to |lines|
      invariant |forms| == i && forall j :: 0 <= j < i ==> Reads(lines[j], forms[j])
    {
      ghost var form := EveryLineHasAForm(lines[i]);
      forms := forms + [form];
    }
    assert lines[..|lines|] == lines;
    forall section, key ensures LastCounts(schema, defaults, values, forms, |forms|, section, key) {
      StateAfter(schema, defaults, lines, forms, |lines|, section, key);
    }
  }

  // ----- values -----

  /** The value of a digit string grows by one digit at its end. */
  lemma DigitsGrow(s: string, c: char)
    requires Digits(s) && Digit(c)
    ensures DigitsValue("") == 0 && DigitsValue(s + [c]) == 10 * DigitsValue(s) + (c as int - '0' as int)
  {
    assert (s + [c])[..|s|] == s;
  }

  /** A number is a digit string within the type, with or without a plus sign; anything else
      gives the fallback of the field. */
  lemma NumberIs(s: string, max: nat, fallback: nat)
    ensures Digits(s) && s != "" && DigitsValue(s) <= max ==>
              && ParseValue(NumberField(max, fallback), s) == Number(DigitsValue(s))
              && ParseValue(NumberField(max, fallback), "+" + s) == Number(DigitsValue(s))
    ensures ParseValue(NumberField(max, fallback), s) != Number(fallback) ==>
              exists d ::
                && (s == d || s == "+" + d) && d != "" && Digits(d) && DigitsValue(d) <= max
                && ParseValue(NumberField(max, fallback), s) == Number(DigitsValue(d))
  {
    assert ("+" + s)[1..] == s;
    var d := if s != "" && s[0] == '+' then s[1..] else s;
    assert s == d || s == "+" + d;
  }

  lemma FlagIs(s: string, fallback: bool)
    ensures ParseValue(FlagField(fallback), "true") == Flag(true)
    ensures ParseValue(FlagField(fallback), "false") == Flag(false)
    ensures s != "true" && s != "false" ==> ParseValue(FlagField(fallback), s) == Flag(fallback)
  {
    var yes, no := "true", "false";
    assert |yes| != |no|;
  }

  lemma PartsCons(part: string, rest: seq<string>)
    ensures Names([part] + rest) == (if Trim(part) == "" then [] else [Trim(part)]) + Names(rest)
  {
    hide Trim;
    assert ([part] + rest)[1..] == rest;
  }

  /** A list is what stands between commas, trimmed, without what is blank. */
  lemma ListIs(a: string, b: string)
    requires ',' !in a
    ensures var first := if AllWhite(a) then [] else [Trim(a)];
            && ParseValue(NamesField, a) == List(first)
            && ParseValue(NamesField, a + "," + b) == List(first + ParseValue(NamesField, b).names)
  {
    hide Trim, White, Find, Names;
    BlankIs(a);
    FindNone(a, ',');
    FindAfter(a, ',', b);
    var s := a + "," + b;
    assert s == a + [','] + b && s[..|a|] == a && s[|a| + 1..] == b;
    assert Split(a) == [a] + [] && Split(s) == [a] + Split(b);
    PartsCons(a, []);
    NoNames();
    PartsCons(a, Split(b));
  }
}
