/**
 The macro cache: a text scan finds the macros of a source file, and the cache key
 hashes the path and the text of those macros only.
 */
module MacroCache {
  import opened Fnv

  // ----- reading backwards: the start of a range -----

  /** The start of the line that holds position p. */
  function LineStart(src: Text, p: nat): (r: nat)
    requires p <= |src|
    ensures r <= p && AtLineStart(src, r)
    ensures forall i :: r <= i < p ==> src[i] != '\n'
  {
    if p == 0 || src[p - 1] == '\n' then p else LineStart(src, p - 1)
  }

  predicate AtLineStart(src: Text, p: nat) {
    p <= |src| && (p == 0 || src[p - 1] == '\n')
  }

  predicate Blank(c: char) { c == ' ' || c == '\t' }

  function SkipBlanks(src: Text, k: nat, end: nat): (r: nat)
    requires k <= end <= |src|
    ensures k <= r <= end && (r < end ==> !Blank(src[r]))
    ensures forall i :: k <= i < r ==> Blank(src[i])
    decreases end - k
  {
    if k < end && Blank(src[k]) then SkipBlanks(src, k + 1, end) else k
  }

  /** The line that ends at the line break at e starts with an annotation. */
  predicate AnnotationLine(src: Text, e: nat)
    requires e < |src|
  {
    var k := SkipBlanks(src, LineStart(src, e), e);
    k < e && src[k] == '@'
  }

  /** The start of the annotation lines that stand directly above the line at ls. */
  function AnnotationStart(src: Text, ls: nat): (r: nat)
    requires AtLineStart(src, ls)
    ensures r <= ls && AtLineStart(src, r)
  {
    if ls <= 1 then ls
    else if AnnotationLine(src, ls - 1) then AnnotationStart(src, LineStart(src, ls - 1))
    else ls
  }

  /** It takes in exactly the annotation lines: every line from there to ls is one,
      and the line above is not. */
  lemma {:induction false} AnnotationStartIsMaximal(src: Text, ls: nat)
    requires AtLineStart(src, ls)
    ensures var r := AnnotationStart(src, ls); r == 0 || !AnnotationLine(src, r - 1)
    ensures forall e :: AnnotationStart(src, ls) <= e < ls && src[e] == '\n' ==> AnnotationLine(src, e)
  {
    hide AnnotationLine;
    if ls == 1 {
      NoAnnotationInEmptyLine(src);
    } else if ls > 1 && AnnotationLine(src, ls - 1) {
      AnnotationStartIsMaximal(src, LineStart(src, ls - 1));
    }
  }

  lemma NoAnnotationInEmptyLine(src: Text)
    requires |src| > 0
    ensures !AnnotationLine(src, 0)
  {
  }

  // ----- reading forwards: the end of a range -----

  predicate HitAt(src: Text, p: nat) {
    p + 6 <= |src| && src[p..p + 6] == "@Macro"
  }

  /** The first hit from p on; |src| if there is none. */
  function FindMacro(src: Text, p: nat): (r: nat)
    ensures r <= |src| && (r < |src| ==> p <= r && HitAt(src, r))
    ensures forall i :: p <= i < r ==> !HitAt(src, i)
    decreases |src| - p
  {
    if p >= |src| then |src| else if HitAt(src, p) then p else FindMacro(src, p + 1)
  }

  /** The first c from p on; |src| if there is none. */
  function FindChar(src: Text, c: char, p: nat): (r: nat)
    ensures r <= |src| && (r < |src| ==> p <= r && src[r] == c)
    ensures forall i :: p <= i < r ==> src[i] != c
    decreases |src| - p
  {
    if p >= |src| then |src| else if src[p] == c then p else FindChar(src, c, p + 1)
  }

  /** The closing quote of the string whose inside starts at i; |src| if it has none. */
  function StringEnd(src: Text, i: nat): (r: nat)
    requires i <= |src|
    ensures i <= r <= |src| && (r < |src| ==> src[r] == '"')
    decreases |src| - i
  {
    if i == |src| || src[i] == '"' then i
    else if src[i] == '\\' && i + 1 < |src| then StringEnd(src, i + 2)
    else StringEnd(src, i + 1)
  }

  predicate CommentAt(src: Text, i: nat)
    requires i < |src|
  {
    src[i] == '/' && i + 1 < |src| && src[i + 1] == '/'
  }

  /** The position after the string, the line comment or the character at i. */
  function After(src: Text, i: nat): (r: nat)
    requires i < |src|
    ensures i < r <= |src| + 1
  {
    if src[i] == '"' then StringEnd(src, i + 1) + 1
    else if CommentAt(src, i) then FindChar(src, '\n', i)
    else i + 1
  }

  function Weight(src: Text, i: nat): int
    requires i < |src|
  {
    if src[i] == '{' then 1 else if src[i] == '}' then -1 else 0
  }

  datatype Body = Body(end: nat, depth: nat)

  /** Reads on until the braces balance or the text ends. */
  function ReadBody(src: Text, i: nat, depth: nat): (b: Body)
    requires i <= |src| + 1
    ensures i <= b.end <= |src| + 1
    ensures b.depth == 0 || b.end >= |src|
    decreases |src| + 1 - i
  {
    if i >= |src| || depth == 0 then Body(i, depth)
    else ReadBody(src, After(src, i), depth + Weight(src, i))
  }

  // ----- the macros of a source -----

  /** A macro: where its range starts and ends, where the hit and the open brace are. */
  datatype Macro = Macro(start: nat, hit: nat, open: nat, end: nat)

  function MacroAt(src: Text, h: nat): Macro
    requires HitAt(src, h) && FindChar(src, '{', h + 6) < |src|
  {
    var open := FindChar(src, '{', h + 6);
    Macro(AnnotationStart(src, LineStart(src, h)), h, open, ReadBody(src, open + 1, 1).end)
  }

  function Macros(src: Text, pos: nat): seq<Macro>
    decreases |src| + 1 - pos
  {
    var h := FindMacro(src, pos);
    if h == |src| || FindChar(src, '{', h + 6) == |src| then []
    else [MacroAt(src, h)] + Macros(src, MacroAt(src, h).end)
  }

  /** What holds of every range: it starts a line, holds its hit and its open brace,
      and ends after them, at most one past the text. */
  predicate WellPlaced(src: Text, m: Macro) {
    && AtLineStart(src, m.start)
    && m.start <= m.hit && HitAt(src, m.hit)
    && m.hit + 6 <= m.open < m.end <= |src| + 1 && m.open < |src| && src[m.open] == '{'
  }

  /** Each hit lies at or after the end of the range before it, so ends increase. */
  ghost predicate InOrder(src: Text, pos: nat, ms: seq<Macro>) {
    && (forall k :: 0 <= k < |ms| ==> WellPlaced(src, ms[k]))
    && (forall j, k :: 0 <= j < k < |ms| ==> ms[j].end <= ms[k].hit && ms[j].end < ms[k].end)
    && (forall k :: 0 <= k < |ms| ==> pos <= ms[k].hit)
  }

  lemma {:induction false} MacrosInOrder(src: Text, pos: nat)
    ensures InOrder(src, pos, Macros(src, pos))
    decreases |src| + 1 - pos
  {
    hide FindMacro, FindChar, HitAt, MacroAt, WellPlaced;
    var h := FindMacro(src, pos);
    if h < |src| && FindChar(src, '{', h + 6) < |src| {
      var m := MacroAt(src, h);
      MacroIsWellPlaced(src, h);
      MacrosInOrder(src, m.end);
      InOrderCons(src, pos, m, Macros(src, m.end));
    }
  }

  lemma MacroIsWellPlaced(src: Text, h: nat)
    requires HitAt(src, h) && FindChar(src, '{', h + 6) < |src|
    ensures WellPlaced(src, MacroAt(src, h)) && MacroAt(src, h).hit == h < MacroAt(src, h).end
  {
    hide LineStart, AnnotationStart, HitAt, ReadBody;
  }

  lemma InOrderCons(src: Text, pos: nat, m: Macro, rest: seq<Macro>)
    requires WellPlaced(src, m) && pos <= m.hit < m.end && InOrder(src, m.end, rest)
    ensures InOrder(src, pos, [m] + rest)
  {
    hide HitAt;
    var ms := [m] + rest;
    assert forall k :: 1 <= k < |ms| ==> ms[k] == rest[k - 1];
    assert forall k :: 0 <= k < |rest| ==> rest[k].hit < rest[k].end;
  }

  // ----- the braces of a body balance -----

  /** The positions that the scan of a body stops at, from i to the end of the text. */
  function Stops(src: Text, i: nat): (ts: seq<nat>)
    requires i <= |src| + 1
    ensures |ts| > 0 && ts[0] == i
    ensures forall k :: 0 <= k < |ts| - 1 ==> ts[k] < |src|
    ensures ts[|ts| - 1] >= |src|
    decreases |src| + 1 - i
  {
    if i >= |src| then [i] else [i] + Stops(src, After(src, i))
  }

  /** The braces opened less the braces closed at the first n stops. */
  function Balance(src: Text, i: nat, n: nat): int
    requires i <= |src| + 1 && n < |Stops(src, i)|
    decreases n
  {
    if n == 0 then 0 else Weight(src, i) + Balance(src, After(src, i), n - 1)
  }

  lemma NextStop(src: Text, i: nat, n: nat)
    requires i < |src| && n < |Stops(src, After(src, i))|
    ensures |Stops(src, i)| == 1 + |Stops(src, After(src, i))| && Stops(src, i)[n + 1] == Stops(src, After(src, i))[n]
    ensures Balance(src, i, n + 1) == Weight(src, i) + Balance(src, After(src, i), n)
  {
    hide After, Weight;
  }

  /** A body ends at the first stop where the braces balance, or at the last. */
  lemma {:induction false} BodyEndsAtFirstBalance(src: Text, i: nat, depth: nat) returns (n: nat)
    requires i <= |src| + 1
    ensures n < |Stops(src, i)|
    ensures depth + Balance(src, i, n) >= 0
    ensures ReadBody(src, i, depth) == Body(Stops(src, i)[n], depth + Balance(src, i, n))
    ensures forall m :: 0 <= m < n ==> depth + Balance(src, i, m) > 0
    ensures depth + Balance(src, i, n) == 0 || n == |Stops(src, i)| - 1
    decreases |src| + 1 - i
  {
    hide After, Stops;
    n := 0;
    if i < |src| && depth > 0 {
      var n' := BodyEndsAtFirstBalance(src, After(src, i), depth + Weight(src, i));
      n := n' + 1;
      NextStop(src, i, n');
      forall m | 0 <= m < n ensures depth + Balance(src, i, m) > 0 {
        if m > 0 { assert depth + Weight(src, i) + Balance(src, After(src, i), m - 1) > 0; }
      }
    }
  }

  // ----- the two scanners -----

  method ScanBack(src: Text, pos: nat) returns (lineStart: nat)
    requires pos <= |src|
    ensures lineStart == AnnotationStart(src, LineStart(src, pos))
  {
    hide AnnotationLine, AnnotationStart;
    lineStart := pos;
    while lineStart > 0 && src[lineStart - 1] != '\n'
      invariant lineStart <= pos
      invariant LineStart(src, lineStart) == LineStart(src, pos)
    {
      lineStart := lineStart - 1;
    }
    ghost var first := lineStart;
    while lineStart > 0
      invariant AtLineStart(src, lineStart)
      invariant AnnotationStart(src, lineStart) == AnnotationStart(src, first)
    {
      AnnotationStep(src, lineStart);
      var prevEnd := lineStart - 1;
      if prevEnd == 0 || src[prevEnd] != '\n' { break; }
      var annotated, prevStart := ScanLine(src, prevEnd);
      if annotated {
        lineStart := prevStart;
      } else {
        break;
      }
    }
    AnnotationStep(src, lineStart);
  }

  lemma AnnotationStep(src: Text, ls: nat)
    requires AtLineStart(src, ls)
    ensures AnnotationStart(src, ls) ==
            if ls <= 1 || !AnnotationLine(src, ls - 1) then ls else AnnotationStart(src, LineStart(src, ls - 1))
  {
    hide AnnotationLine;
  }

  method ScanLine(src: Text, prevEnd: nat) returns (annotated: bool, prevStart: nat)
    requires prevEnd < |src|
    ensures annotated == AnnotationLine(src, prevEnd) && prevStart == LineStart(src, prevEnd)
  {
    prevStart := prevEnd;
    while prevStart > 0 && src[prevStart - 1] != '\n'
      invariant prevStart <= prevEnd
      invariant LineStart(src, prevStart) == LineStart(src, prevEnd)
    {
      prevStart := prevStart - 1;
    }
    var k := prevStart;
    while k < prevEnd && (src[k] == ' ' || src[k] == '\t')
      invariant prevStart <= k <= prevEnd
      invariant SkipBlanks(src, k, prevEnd) == SkipBlanks(src, prevStart, prevEnd)
    {
      k := k + 1;
    }
    annotated := k < prevEnd && src[k] == '@';
  }

  method ScanString(src: Text, from: nat) returns (i: nat)
    requires from <= |src|
    ensures i == StringEnd(src, from)
  {
    i := from;
    while i < |src| && src[i] != '"'
      invariant from <= i <= |src|
      invariant StringEnd(src, i) == StringEnd(src, from)
    {
      if src[i] == '\\' && i + 1 < |src| { i := i + 1; }
      i := i + 1;
    }
  }

  method ScanComment(src: Text, from: nat) returns (i: nat)
    requires from <= |src|
    ensures i == FindChar(src, '\n', from)
  {
    i := from;
    while i < |src| && src[i] != '\n'
      invariant from <= i <= |src|
      invariant FindChar(src, '\n', i) == FindChar(src, '\n', from)
    {
      i := i + 1;
    }
  }

  method ScanBody(src: Text, open: nat) returns (i: nat)
    requires open < |src|
    ensures i == ReadBody(src, open + 1, 1).end
  {
    hide StringEnd, FindChar;
    var depth := 1;
    i := open + 1;
    while i < |src| && depth > 0
      invariant i <= |src| + 1 && depth >= 0
      invariant ReadBody(src, i, depth) == ReadBody(src, open + 1, 1)
      decreases |src| + 1 - i
    {
      ghost var i0 := i;
      var c := src[i];
      if c == '"' {
        i := ScanString(src, i + 1);
        i := i + 1;
        assert i == After(src, i0);
        continue;
      }
      if c == '/' && i + 1 < |src| && src[i + 1] == '/' {
        i := ScanComment(src, i);
        assert i == After(src, i0);
        continue;
      }
      if c == '{' {
        depth := depth + 1;
      } else if c == '}' {
        depth := depth - 1;
      }
      i := i + 1;
    }
  }

  ghost predicate RangesOf(ranges: seq<(nat, nat)>, ms: seq<Macro>) {
    |ranges| == |ms| && forall k :: 0 <= k < |ms| ==> ranges[k] == (ms[k].start, ms[k].end)
  }

  lemma MacrosFrom(src: Text, pos: nat)
    ensures var h := FindMacro(src, pos);
            if h == |src| || FindChar(src, '{', h + 6) == |src| then Macros(src, pos) == []
            else Macros(src, pos) == [MacroAt(src, h)] + Macros(src, MacroAt(src, h).end)
  {
    hide FindMacro, FindChar, HitAt, MacroAt;
  }

  lemma MacrosStep(src: Text, pos: nat, done: seq<Macro>)
    ensures var h := FindMacro(src, pos);
            var rest := Macros(src, pos);
            if h == |src| || FindChar(src, '{', h + 6) == |src| then done + rest == done
            else done + rest == done + [MacroAt(src, h)] + Macros(src, MacroAt(src, h).end)
  {
    hide FindMacro, FindChar, HitAt, MacroAt, Macros;
    MacrosFrom(src, pos);
  }

  method FindMacroRanges(src: Text) returns (ranges: seq<(nat, nat)>)
    ensures RangesOf(ranges, Macros(src, 0))
  {
    hide FindMacro, FindChar, HitAt, LineStart, AnnotationStart, ReadBody, Macros;
    ranges := [];
    ghost var done: seq<Macro> := [];
    var pos := 0;
    while true
      invariant Macros(src, 0) == done + Macros(src, pos)
      invariant RangesOf(ranges, done)
      decreases |src| + 1 - pos
    {
      MacrosStep(src, pos, done);
      var hit := FindMacro(src, pos);
      if hit == |src| { break; }
      var lineStart := ScanBack(src, hit);
      var open := FindChar(src, '{', hit + 6);
      if open == |src| { break; }
      var i := ScanBody(src, open);
      MacroIsWellPlaced(src, hit);
      done := done + [MacroAt(src, hit)];
      ranges := ranges + [(lineStart, i)];
      pos := i;
    }
  }

  // ----- names -----

  predicate NameBlank(c: char) { c == ' ' || c == '\t' || c == '\n' }

  predicate NameChar(c: char) {
    'a' <= c <= 'z' || 'A' <= c <= 'Z' || '0' <= c <= '9' || c == '_'
  }

  /** The end of what stands before p once blanks, but nothing before lo, are dropped. */
  function TrimBack(src: Text, lo: nat, p: nat): (r: nat)
    requires lo <= p <= |src|
    ensures lo <= r <= p && (r > lo ==> !NameBlank(src[r - 1]))
    ensures forall i :: r <= i < p ==> NameBlank(src[i])
  {
    if p > lo && NameBlank(src[p - 1]) then TrimBack(src, lo, p - 1) else p
  }

  function NameStart(src: Text, lo: nat, p: nat): (r: nat)
    requires lo <= p <= |src|
    ensures lo <= r <= p && (r > lo ==> !NameChar(src[r - 1]))
    ensures forall i :: r <= i < p ==> NameChar(src[i])
  {
    if p > lo && NameChar(src[p - 1]) then NameStart(src, lo, p - 1) else p
  }

  /** The identifier before the first parenthesis after the hit, if that comes before
      the body. */
  function NameOf(src: Text, lo: nat, open: nat): Text
    requires lo <= open <= |src|
  {
    var paren := FindChar(src, '(', lo);
    if paren < open then
      var e := TrimBack(src, lo, paren);
      var b := NameStart(src, lo, e);
      if b < e then src[b..e] else "<anon>"
    else "<anon>"
  }

  method ScanName(src: Text, lo: nat, open: nat) returns (name: Text)
    requires lo <= open <= |src|
    ensures name == NameOf(src, lo, open)
  {
    hide FindChar;
    name := [];
    var paren := FindChar(src, '(', lo);
    if paren != |src| && paren < open {
      var nameEnd := paren;
      while nameEnd > lo && (src[nameEnd - 1] == ' ' || src[nameEnd - 1] == '\t' || src[nameEnd - 1] == '\n')
        invariant lo <= nameEnd <= paren
        invariant TrimBack(src, lo, nameEnd) == TrimBack(src, lo, paren)
      {
        nameEnd := nameEnd - 1;
      }
      var nameStart := nameEnd;
      while nameStart > lo && NameChar(src[nameStart - 1])
        invariant lo <= nameStart <= nameEnd
        invariant NameStart(src, lo, nameStart) == NameStart(src, lo, nameEnd)
      {
        nameStart := nameStart - 1;
      }
      if nameEnd > nameStart { name := src[nameStart..nameEnd]; }
    }
    if |name| == 0 { name := "<anon>"; }
  }

  ghost predicate NamedRangesOf(src: Text, named: seq<(Text, nat, nat)>, ms: seq<Macro>) {
    && |named| == |ms|
    && forall k :: 0 <= k < |ms| ==>
         && ms[k].hit + 6 <= ms[k].open <= |src|
         && named[k] == (NameOf(src, ms[k].hit + 6, ms[k].open), ms[k].start, ms[k].end)
  }

  /** The named scanner finds the same ranges. */
  method FindMacroRangesWithNames(src: Text) returns (named: seq<(Text, nat, nat)>)
    ensures NamedRangesOf(src, named, Macros(src, 0))
  {
    hide FindMacro, FindChar, HitAt, LineStart, AnnotationStart, ReadBody, Macros, NameOf;
    named := [];
    ghost var done: seq<Macro> := [];
    var pos := 0;
    while true
      invariant Macros(src, 0) == done + Macros(src, pos)
      invariant NamedRangesOf(src, named, done)
      decreases |src| + 1 - pos
    {
      MacrosStep(src, pos, done);
      var hit := FindMacro(src, pos);
      if hit == |src| { break; }
      var lineStart := ScanBack(src, hit);
      var open := FindChar(src, '{', hit + 6);
      if open == |src| { break; }
      MacroIsWellPlaced(src, hit);
      var name := ScanName(src, hit + 6, open);
      var i := ScanBody(src, open);
      done := done + [MacroAt(src, hit)];
      named := named + [(name, lineStart, i)];
      pos := i;
    }
  }

  // ----- the key -----

  function Min(a: nat, b: nat): nat { if a < b then a else b }

  function Slice(src: Text, from: nat, to: nat): Text {
    if from <= Min(to, |src|) then src[from..Min(to, |src|)] else []
  }

  /** The text of each range. */
  function Contents(src: Text, ms: seq<Macro>): seq<Text> {
    if ms == [] then [] else [Slice(src, ms[0].start, ms[0].end)] + Contents(src, ms[1..])
  }

  const VERSION: Byte := 2 as char
  const PATH_END: Byte := 0xFF as char
  const MACRO_END: Byte := 0xFE as char

  function Join(cs: seq<Text>): Text {
    if cs == [] then [] else cs[0] + [MACRO_END] + Join(cs[1..])
  }

  function Header(path: Text): Text { [VERSION] + path + [PATH_END] }

  /** The bytes that the key hashes. */
  function Stream(path: Text, src: Text): Text {
    Header(path) + (if Macros(src, 0) == [] then src else Join(Contents(src, Macros(src, 0))))
  }

  method HashPart(h0: Word, src: Text, from: nat, to: nat) returns (h: Word)
    ensures h == Absorb(h0, Slice(src, from, to))
  {
    hide Mix;
    h := h0;
    var end := if to < |src| then to else |src|;
    var i := from;
    while i < end
      invariant from <= i && (i <= end || i == from)
      invariant h == Absorb(h0, Slice(src, from, i))
    {
      AbsorbPush(h0, Slice(src, from, i), src[i]);
      assert Slice(src, from, i + 1) == Slice(src, from, i) + [src[i]];
      h := Mix(h, src[i]);
      i := i + 1;
    }
    assert Slice(src, from, i) == Slice(src, from, to);
  }

  method CacheKey(path: Text, src: Text) returns (h: Word)
    ensures h == Absorb(OFFSET, Stream(path, src))
  {
    hide Mix, Absorb, Macros;
    h := HashHeader(path);
    var ranges := FindMacroRanges(src);
    ghost var ms := Macros(src, 0);
    if |ranges| == 0 {
      h := HashPart(h, src, 0, |src|);
      assert Slice(src, 0, |src|) == src;
      AbsorbAppend(OFFSET, Header(path), src);
    } else {
      h := HashRanges(h, src, ranges, ms);
      AbsorbAppend(OFFSET, Header(path), Join(Contents(src, ms)));
    }
  }

  method HashHeader(path: Text) returns (h: Word)
    ensures h == Absorb(OFFSET, Header(path))
  {
    hide Mix, Absorb;
    h := Mix(OFFSET, VERSION);
    NothingAbsorbed(OFFSET);
    AbsorbPush(OFFSET, [], VERSION);
    assert [] + [VERSION] == [VERSION];
    h := HashPart(h, path, 0, |path|);
    assert Slice(path, 0, |path|) == path;
    AbsorbAppend(OFFSET, [VERSION], path);
    AbsorbPush(OFFSET, [VERSION] + path, PATH_END);
    h := Mix(h, PATH_END);
  }

  lemma NothingAbsorbed(h: Word)
    ensures Absorb(h, []) == h
  {
  }

  method HashRanges(h0: Word, src: Text, ranges: seq<(nat, nat)>, ghost ms: seq<Macro>) returns (h: Word)
    requires RangesOf(ranges, ms)
    ensures h == Absorb(h0, Join(Contents(src, ms)))
  {
    hide Mix, Absorb, Join, Slice;
    h := h0;
    ghost var whole := Join(Contents(src, ms));
    ghost var done: Text := [];
    NothingAbsorbed(h0);
    assert ms[0..] == ms && done + whole == whole;
    for k := 0 to |ranges|
      invariant whole == done + Join(Contents(src, ms[k..]))
      invariant h == Absorb(h0, done)
    {
      JoinStep(src, ms, k);
      ghost var text := Slice(src, ms[k].start, ms[k].end);
      h := HashPart(h, src, ranges[k].0, ranges[k].1);
      AbsorbAppend(h0, done, text);
      AbsorbPush(h0, done + text, MACRO_END);
      h := Mix(h, MACRO_END);
      assert done + (text + [MACRO_END] + Join(Contents(src, ms[k + 1..])))
          == done + text + [MACRO_END] + Join(Contents(src, ms[k + 1..]));
      done := done + text + [MACRO_END];
    }
    JoinEnd(src, ms);
    assert done + [] == done;
  }

  lemma JoinStep(src: Text, ms: seq<Macro>, k: nat)
    requires k < |ms|
    ensures Join(Contents(src, ms[k..])) ==
            Slice(src, ms[k].start, ms[k].end) + [MACRO_END] + Join(Contents(src, ms[k + 1..]))
  {
    hide Slice;
    assert ms[k..][1..] == ms[k + 1..];
    var c, cs := Slice(src, ms[k].start, ms[k].end), Contents(src, ms[k + 1..]);
    assert ([c] + cs)[1..] == cs;
  }

  lemma JoinEnd(src: Text, ms: seq<Macro>)
    ensures Join(Contents(src, ms[|ms|..])) == []
  {
  }
}
