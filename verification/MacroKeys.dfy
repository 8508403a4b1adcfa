/**
 What the cache key depends on: scanning distributes over self-contained pieces of a
 source, so edits outside the macros keep the key and edits inside change it.
 */
module MacroKeys {
  import opened Fnv
  import opened MacroCache

  // ----- positions in the second piece -----

  lemma HitShifts(pre: Text, z: Text, p: nat)
    ensures HitAt(pre + z, |pre| + p) == HitAt(z, p)
  {
    if p + 6 <= |z| { assert (pre + z)[|pre| + p..|pre| + p + 6] == z[p..p + 6]; }
  }

  lemma {:induction false} FindMacroShifts(pre: Text, z: Text, p: nat)
    ensures FindMacro(pre + z, |pre| + p) == |pre| + FindMacro(z, p)
    decreases |z| - p
  {
    hide HitAt;
    if p < |z| {
      HitShifts(pre, z, p);
      FindMacroShifts(pre, z, p + 1);
    }
  }

  lemma {:induction false} FindCharShifts(pre: Text, z: Text, c: char, p: nat)
    ensures FindChar(pre + z, c, |pre| + p) == |pre| + FindChar(z, c, p)
    decreases |z| - p
  {
    if p < |z| { FindCharShifts(pre, z, c, p + 1); }
  }

  lemma {:induction false} StringEndShifts(pre: Text, z: Text, i: nat)
    requires i <= |z|
    ensures StringEnd(pre + z, |pre| + i) == |pre| + StringEnd(z, i)
    decreases |z| - i
  {
    if i < |z| {
      StringEndShifts(pre, z, i + 1);
      if i + 1 < |z| { StringEndShifts(pre, z, i + 2); }
    }
  }

  lemma AfterShifts(pre: Text, z: Text, i: nat)
    requires i < |z|
    ensures After(pre + z, |pre| + i) == |pre| + After(z, i)
    ensures Weight(pre + z, |pre| + i) == Weight(z, i)
  {
    hide StringEnd, FindChar;
    StringEndShifts(pre, z, i + 1);
    FindCharShifts(pre, z, '\n', i);
  }

  lemma {:induction false} ReadBodyShifts(pre: Text, z: Text, i: nat, depth: nat)
    requires i <= |z| + 1
    ensures ReadBody(pre + z, |pre| + i, depth) == Body(|pre| + ReadBody(z, i, depth).end, ReadBody(z, i, depth).depth)
    decreases |z| + 1 - i
  {
    hide After;
    if i < |z| && depth > 0 {
      AfterShifts(pre, z, i);
      ReadBodyShifts(pre, z, After(z, i), depth + Weight(z, i));
    }
  }

  lemma {:induction false} LineStartShifts(pre: Text, z: Text, p: nat)
    requires p <= |z| && AtLineStart(pre, |pre|)
    ensures LineStart(pre + z, |pre| + p) == |pre| + LineStart(z, p)
  {
    if p > 0 { LineStartShifts(pre, z, p - 1); }
  }

  lemma {:induction false} SkipBlanksShifts(pre: Text, z: Text, k: nat, end: nat)
    requires k <= end <= |z|
    ensures SkipBlanks(pre + z, |pre| + k, |pre| + end) == |pre| + SkipBlanks(z, k, end)
    decreases end - k
  {
    if k < end { SkipBlanksShifts(pre, z, k + 1, end); }
  }

  lemma AnnotationLineShifts(pre: Text, z: Text, e: nat)
    requires e < |z| && AtLineStart(pre, |pre|)
    ensures AnnotationLine(pre + z, |pre| + e) == AnnotationLine(z, e)
  {
    LineStartShifts(pre, z, e);
    SkipBlanksShifts(pre, z, LineStart(z, e), e);
  }

  // ----- positions in the first piece -----

  lemma {:induction false} LineStartStays(pre: Text, z: Text, p: nat)
    requires p <= |pre|
    ensures LineStart(pre + z, p) == LineStart(pre, p)
  {
    if p > 0 { LineStartStays(pre, z, p - 1); }
  }

  lemma {:induction false} SkipBlanksStays(pre: Text, z: Text, k: nat, end: nat)
    requires k <= end <= |pre|
    ensures SkipBlanks(pre + z, k, end) == SkipBlanks(pre, k, end)
    decreases end - k
  {
    if k < end { SkipBlanksStays(pre, z, k + 1, end); }
  }

  lemma AnnotationLineStays(pre: Text, z: Text, e: nat)
    requires e < |pre|
    ensures AnnotationLine(pre + z, e) == AnnotationLine(pre, e)
  {
    LineStartStays(pre, z, e);
    SkipBlanksStays(pre, z, LineStart(pre, e), e);
  }

  lemma {:induction false} AnnotationStartStays(pre: Text, z: Text, ls: nat)
    requires AtLineStart(pre, ls)
    ensures AtLineStart(pre + z, ls) && AnnotationStart(pre + z, ls) == AnnotationStart(pre, ls)
  {
    hide AnnotationLine, LineStart;
    if ls > 1 {
      AnnotationLineStays(pre, z, ls - 1);
      LineStartStays(pre, z, ls - 1);
      AnnotationStartStays(pre, z, LineStart(pre, ls - 1));
    }
  }

  /** A piece after which a new line begins and no annotation hangs over. */
  predicate EndsCleanly(pre: Text) {
    AtLineStart(pre, |pre|) && AnnotationStart(pre, |pre|) == |pre|
  }

  lemma {:induction false} AnnotationStartShifts(pre: Text, z: Text, ls: nat)
    requires EndsCleanly(pre) && AtLineStart(z, ls)
    ensures AtLineStart(pre + z, |pre| + ls)
    ensures AnnotationStart(pre + z, |pre| + ls) == |pre| + AnnotationStart(z, ls)
  {
    hide AnnotationLine, LineStart, AnnotationStart;
    if ls == 0 {
      AnnotationStartStays(pre, z, |pre|);
      AnnotationStep(z, 0);
    } else {
      AnnotationStep(z, ls);
      AnnotationStep(pre + z, |pre| + ls);
      AnnotationLineShifts(pre, z, ls - 1);
      if ls == 1 {
        NoAnnotationInEmptyLine(z);
      } else {
        LineStartShifts(pre, z, ls - 1);
        AnnotationStartShifts(pre, z, LineStart(z, ls - 1));
      }
    }
  }

  lemma HitStays(pre: Text, z: Text, p: nat)
    requires p < |pre| && AtLineStart(pre, |pre|)
    ensures HitAt(pre + z, p) == HitAt(pre, p)
  {
    var w := pre + z;
    if p + 6 <= |pre| {
      assert w[p..p + 6] == pre[p..p + 6];
    } else if p + 6 <= |w| {
      assert w[p..p + 6][|pre| - 1 - p] == '\n';
      assert "@Macro"[|pre| - 1 - p] != '\n';
    }
  }

  lemma {:induction false} FindMacroStays(pre: Text, z: Text, p: nat)
    requires p <= |pre| && AtLineStart(pre, |pre|)
    ensures FindMacro(pre + z, p) ==
            if FindMacro(pre, p) < |pre| then FindMacro(pre, p) else |pre| + FindMacro(z, 0)
    decreases |pre| - p
  {
    hide HitAt;
    if p < |pre| {
      HitStays(pre, z, p);
      FindMacroStays(pre, z, p + 1);
    } else {
      FindMacroShifts(pre, z, 0);
    }
  }

  lemma {:induction false} FindCharStays(pre: Text, z: Text, c: char, p: nat)
    requires FindChar(pre, c, p) < |pre|
    ensures FindChar(pre + z, c, p) == FindChar(pre, c, p)
    decreases |pre| - p
  {
    if p < |pre| && pre[p] != c { FindCharStays(pre, z, c, p + 1); }
  }

  lemma {:induction false} StringEndStays(pre: Text, z: Text, i: nat)
    requires i <= |pre| && StringEnd(pre, i) < |pre|
    ensures StringEnd(pre + z, i) == StringEnd(pre, i)
    decreases |pre| - i
  {
    if i < |pre| && pre[i] != '"' {
      if pre[i] == '\\' && i + 1 < |pre| {
        StringEndStays(pre, z, i + 2);
      } else {
        StringEndStays(pre, z, i + 1);
      }
    }
  }

  lemma AfterStays(pre: Text, z: Text, i: nat)
    requires i < |pre| && (After(pre, i) < |pre| || Weight(pre, i) != 0)
    ensures After(pre + z, i) == After(pre, i) && Weight(pre + z, i) == Weight(pre, i)
  {
    hide StringEnd, FindChar;
    assert (pre + z)[i] == pre[i];
    if pre[i] == '"' {
      StringEndStays(pre, z, i + 1);
    } else if CommentAt(pre, i) {
      FindCharStays(pre, z, '\n', i);
    }
  }

  lemma {:induction false} ReadBodyStays(pre: Text, z: Text, i: nat, depth: nat)
    requires i <= |pre| && ReadBody(pre, i, depth).depth == 0
    ensures ReadBody(pre + z, i, depth) == ReadBody(pre, i, depth)
    ensures ReadBody(pre, i, depth).end <= |pre|
    decreases |pre| - i
  {
    hide After;
    if i < |pre| && depth > 0 {
      AfterStays'(pre, i, depth);
      AfterStays(pre, z, i);
      ReadBodyStays(pre, z, After(pre, i), depth + Weight(pre, i));
    }
  }

  /** A body that closes inside the piece reads on inside it. */
  lemma AfterStays'(pre: Text, i: nat, depth: nat)
    requires i < |pre| && depth > 0 && ReadBody(pre, i, depth).depth == 0
    ensures After(pre, i) < |pre| || Weight(pre, i) != 0
    ensures After(pre, i) <= |pre|
  {
    hide StringEnd, FindChar;
  }

  // ----- scanning distributes -----

  /** Every macro of the piece from pos on has its body and closes it. */
  predicate Closes(src: Text, pos: nat)
    decreases |src| + 1 - pos
  {
    var h := FindMacro(src, pos);
    h == |src| ||
    (var open := FindChar(src, '{', h + 6);
     open < |src| && ReadBody(src, open + 1, 1).depth == 0 && Closes(src, ReadBody(src, open + 1, 1).end))
  }

  predicate SelfContained(src: Text) { Closes(src, 0) && EndsCleanly(src) }

  function Moved(ms: seq<Macro>, d: nat): seq<Macro> {
    if ms == [] then [] else [MovedOne(ms[0], d)] + Moved(ms[1..], d)
  }

  function MovedOne(m: Macro, d: nat): Macro {
    Macro(d + m.start, d + m.hit, d + m.open, d + m.end)
  }

  lemma NothingMoved(d: nat)
    ensures Moved([], d) == []
  {
  }

  lemma MovedCons(m: Macro, rest: seq<Macro>, d: nat)
    ensures Moved([m] + rest, d) == [MovedOne(m, d)] + Moved(rest, d)
  {
    hide MovedOne;
    assert ([m] + rest)[1..] == rest;
  }

  lemma MacroShifts(pre: Text, z: Text, h: nat)
    requires EndsCleanly(pre) && HitAt(z, h) && FindChar(z, '{', h + 6) < |z|
    ensures HitAt(pre + z, |pre| + h)
    ensures FindChar(pre + z, '{', |pre| + h + 6) == |pre| + FindChar(z, '{', h + 6)
    ensures MacroAt(pre + z, |pre| + h) == MovedOne(MacroAt(z, h), |pre|)
  {
    hide FindChar, ReadBody, LineStart, AnnotationStart, HitAt;
    HitShifts(pre, z, h);
    FindCharShifts(pre, z, '{', h + 6);
    LineStartShifts(pre, z, h);
    AnnotationStartShifts(pre, z, LineStart(z, h));
    ReadBodyShifts(pre, z, FindChar(z, '{', h + 6) + 1, 1);
  }

  lemma {:induction false} MacrosShift(pre: Text, z: Text, pos: nat)
    requires EndsCleanly(pre)
    ensures Macros(pre + z, |pre| + pos) == Moved(Macros(z, pos), |pre|)
    decreases |z| + 1 - pos
  {
    hide FindMacro, FindChar, HitAt, MacroAt, EndsCleanly, Moved;
    NothingMoved(|pre|);
    var h := FindMacro(z, pos);
    FindMacroShifts(pre, z, pos);
    if h < |z| {
      FindCharShifts(pre, z, '{', h + 6);
      if FindChar(z, '{', h + 6) < |z| {
        var m := MacroAt(z, h);
        MacroShifts(pre, z, h);
        MacroIsWellPlaced(z, h);
        MacrosShift(pre, z, m.end);
        MovedCons(m, Macros(z, m.end), |pre|);
      }
    }
  }

  lemma MacroStays(pre: Text, z: Text, h: nat)
    requires HitAt(pre, h) && FindChar(pre, '{', h + 6) < |pre| && AtLineStart(pre, |pre|)
    requires ReadBody(pre, FindChar(pre, '{', h + 6) + 1, 1).depth == 0
    ensures HitAt(pre + z, h)
    ensures FindChar(pre + z, '{', h + 6) == FindChar(pre, '{', h + 6)
    ensures MacroAt(pre + z, h) == MacroAt(pre, h) && MacroAt(pre, h).end <= |pre|
  {
    hide FindChar, ReadBody, LineStart, AnnotationStart, HitAt;
    HitStays(pre, z, h);
    FindCharStays(pre, z, '{', h + 6);
    LineStartStays(pre, z, h);
    AnnotationStartStays(pre, z, LineStart(pre, h));
    ReadBodyStays(pre, z, FindChar(pre, '{', h + 6) + 1, 1);
  }

  /** The macros of a self-contained piece and what follows it are those of the piece
      and those of what follows. */
  lemma {:induction false} MacrosAppend(pre: Text, z: Text, pos: nat)
    requires pos <= |pre| && EndsCleanly(pre) && Closes(pre, pos)
    ensures Macros(pre + z, pos) == Macros(pre, pos) + Moved(Macros(z, 0), |pre|)
    decreases |pre| - pos
  {
    hide FindMacro, FindChar, HitAt, MacroAt, ReadBody, AnnotationStart;
    var h := FindMacro(pre, pos);
    FindMacroStays(pre, z, pos);
    if h < |pre| {
      MacroStays(pre, z, h);
      MacroIsWellPlaced(pre, h);
      EndOf(pre, h);
      MacrosAppend(pre, z, MacroAt(pre, h).end);
    } else {
      FindMacroShifts(pre, z, 0);
      MacrosFrom(pre + z, pos, |pre|);
      MacrosShift(pre, z, 0);
    }
  }

  lemma EndOf(src: Text, h: nat)
    requires HitAt(src, h) && FindChar(src, '{', h + 6) < |src|
    ensures MacroAt(src, h).end == ReadBody(src, FindChar(src, '{', h + 6) + 1, 1).end
  {
    hide FindChar, HitAt, ReadBody;
  }

  lemma MacrosFrom(src: Text, pos: nat, pos': nat)
    requires FindMacro(src, pos) == FindMacro(src, pos')
    ensures Macros(src, pos) == Macros(src, pos')
  {
    hide FindMacro, FindChar, HitAt, MacroAt;
  }

  // ----- and so do the texts of the macros -----

  lemma {:induction false} ContentsShift(pre: Text, z: Text, ms: seq<Macro>)
    ensures Contents(pre + z, Moved(ms, |pre|)) == Contents(z, ms)
  {
    hide Slice;
    if ms != [] {
      ContentsShift(pre, z, ms[1..]);
      var first := Moved(ms, |pre|)[0];
      assert Moved(ms, |pre|)[1..] == Moved(ms[1..], |pre|);
      SliceShifts(pre, z, ms[0].start, ms[0].end);
    }
  }

  lemma SliceShifts(pre: Text, z: Text, from: nat, to: nat)
    ensures Slice(pre + z, |pre| + from, |pre| + to) == Slice(z, from, to)
  {
  }

  lemma {:induction false} ContentsStay(pre: Text, z: Text, ms: seq<Macro>)
    requires forall k :: 0 <= k < |ms| ==> ms[k].end <= |pre|
    ensures Contents(pre + z, ms) == Contents(pre, ms)
  {
    hide Slice;
    if ms != [] {
      ContentsStay(pre, z, ms[1..]);
      SliceStays(pre, z, ms[0].start, ms[0].end);
    }
  }

  lemma SliceStays(pre: Text, z: Text, from: nat, to: nat)
    requires to <= |pre|
    ensures Slice(pre + z, from, to) == Slice(pre, from, to)
  {
  }

  lemma {:induction false} ContentsAppend(src: Text, a: seq<Macro>, b: seq<Macro>)
    ensures Contents(src, a + b) == Contents(src, a) + Contents(src, b)
  {
    hide Slice;
    if a == [] {
      assert a + b == b;
    } else {
      ContentsAppend(src, a[1..], b);
      assert (a + b)[1..] == a[1..] + b;
    }
  }

  lemma {:induction false} ClosedEnds(src: Text, pos: nat)
    requires pos <= |src| && AtLineStart(src, |src|) && Closes(src, pos)
    ensures forall k :: 0 <= k < |Macros(src, pos)| ==> Macros(src, pos)[k].end <= |src|
    decreases |src| - pos
  {
    hide FindMacro, FindChar, HitAt, MacroAt, ReadBody;
    var h := FindMacro(src, pos);
    if h < |src| {
      MacroStays(src, [], h);
      MacroIsWellPlaced(src, h);
      EndOf(src, h);
      ClosedEnds(src, MacroAt(src, h).end);
    }
  }

  function MacroTexts(src: Text): seq<Text> { Contents(src, Macros(src, 0)) }

  /** Scanning distributes over self-contained pieces. */
  lemma TextsAppend(pre: Text, z: Text)
    requires SelfContained(pre)
    ensures MacroTexts(pre + z) == MacroTexts(pre) + MacroTexts(z)
  {
    hide Macros, Closes, AnnotationStart;
    var a, b := Macros(pre, 0), Moved(Macros(z, 0), |pre|);
    MacrosAppend(pre, z, 0);
    ClosedEnds(pre, 0);
    ContentsAppend(pre + z, a, b);
    ContentsStay(pre, z, a);
    ContentsShift(pre, z, Macros(z, 0));
  }

  // ----- what the key depends on -----

  predicate HasMacros(src: Text) { Macros(src, 0) != [] }

  function Key(path: Text, src: Text): Word { Absorb(OFFSET, Stream(path, src)) }

  /** With macros, the key depends on the path and the texts of the macros only. */
  lemma KeyOfTexts(path: Text, src: Text, src': Text)
    requires HasMacros(src) && HasMacros(src') && MacroTexts(src) == MacroTexts(src')
    ensures Key(path, src) == Key(path, src')
  {
  }

  lemma TextsOfMacros(src: Text)
    ensures |MacroTexts(src)| == |Macros(src, 0)|
  {
    hide Macros, Slice;
    ContentsLength(src, Macros(src, 0));
  }

  lemma {:induction false} ContentsLength(src: Text, ms: seq<Macro>)
    ensures |Contents(src, ms)| == |ms|
  {
    if ms != [] { ContentsLength(src, ms[1..]); }
  }

  /** Code without macros: no hit, and it ends with a line that is no annotation. */
  predicate PlainCode(src: Text) {
    FindMacro(src, 0) == |src| && EndsCleanly(src)
  }

  /** Replacing plain code between self-contained pieces keeps the key. */
  lemma EditsOutsideMacrosKeepTheKey(path: Text, a: Text, code: Text, code': Text, z: Text)
    requires SelfContained(a) && PlainCode(code) && PlainCode(code')
    requires HasMacros(a + (code + z))
    ensures Key(path, a + (code + z)) == Key(path, a + (code' + z))
  {
    hide Macros, Contents, FindMacro, EndsCleanly, Stream;
    EditKeepsTexts(a, code, z);
    EditKeepsTexts(a, code', z);
    TextsOfMacros(a + (code + z));
    TextsOfMacros(a + (code' + z));
    KeyOfTexts(path, a + (code + z), a + (code' + z));
  }

  lemma EditKeepsTexts(a: Text, code: Text, z: Text)
    requires SelfContained(a) && PlainCode(code)
    ensures MacroTexts(a + (code + z)) == MacroTexts(a) + MacroTexts(z)
  {
    hide FindMacro, EndsCleanly, SelfContained;
    PlainIsSelfContained(code);
    TextsAppend(a, code + z);
    TextsAppend(code, z);
    assert [] + MacroTexts(z) == MacroTexts(z);
  }

  lemma PlainIsSelfContained(code: Text)
    requires PlainCode(code)
    ensures SelfContained(code) && MacroTexts(code) == []
  {
    hide FindMacro, EndsCleanly;
  }

  // ----- one changed byte inside a macro -----

  lemma {:induction false} JoinSplit(cs: seq<Text>, j: nat)
    requires j < |cs|
    ensures Join(cs) == Join(cs[..j]) + cs[j] + ([MACRO_END] + Join(cs[j + 1..]))
  {
    if j == 0 {
      assert cs[..0] == [];
    } else {
      JoinSplit(cs[1..], j - 1);
      assert cs[1..][..j - 1] == cs[..j][1..];
      assert cs[1..][j..] == cs[j + 1..];
      assert cs[..j][0] == cs[0];
    }
  }

  lemma JoinHash(h: Word, cs: seq<Text>, j: nat)
    requires j < |cs|
    ensures Absorb(h, Join(cs)) ==
            Absorb(Absorb(Absorb(h, Join(cs[..j])), cs[j]), [MACRO_END] + Join(cs[j + 1..]))
  {
    hide Absorb, Join;
    JoinSplit(cs, j);
    AbsorbAppend(h, Join(cs[..j]) + cs[j], [MACRO_END] + Join(cs[j + 1..]));
    AbsorbAppend(h, Join(cs[..j]), cs[j]);
  }

  /** Changing one byte of one macro text, with the other texts as they were, always
      changes the key. */
  lemma EditInsideMacroChangesTheKey(path: Text, src: Text, src': Text, j: nat, k: nat)
    requires HasMacros(src) && HasMacros(src')
    requires |MacroTexts(src)| == |MacroTexts(src')| && j < |MacroTexts(src)|
    requires DifferOnlyAt(MacroTexts(src)[j], MacroTexts(src')[j], k)
    requires forall i :: 0 <= i < |MacroTexts(src)| && i != j ==> MacroTexts(src)[i] == MacroTexts(src')[i]
    ensures Key(path, src) != Key(path, src')
  {
    hide Absorb, Join, Macros, Contents, DifferOnlyAt, Header;
    var cs, ds := MacroTexts(src), MacroTexts(src');
    AbsorbAppend(OFFSET, Header(path), Join(cs));
    AbsorbAppend(OFFSET, Header(path), Join(ds));
    var h := Absorb(OFFSET, Header(path));
    JoinHash(h, cs, j);
    JoinHash(h, ds, j);
    assert cs[..j] == ds[..j];
    assert cs[j + 1..] == ds[j + 1..];
    var g := Absorb(h, Join(cs[..j]));
    OneByteChangesTheHash(g, cs[j], ds[j], k);
    AbsorbInjective(Absorb(g, cs[j]), Absorb(g, ds[j]), [MACRO_END] + Join(cs[j + 1..]));
  }

  // ----- the hashed bytes determine what they stand for -----

  /** No separator byte, as in every UTF-8 text. */
  ghost predicate Clean(s: Text) {
    forall i :: 0 <= i < |s| ==> s[i] != MACRO_END && s[i] != PATH_END
  }

  ghost predicate AllClean(cs: seq<Text>) {
    forall i :: 0 <= i < |cs| ==> Clean(cs[i])
  }

  /** A text before a separator that it does not hold can be read back. */
  lemma UpToSeparator(a: Text, b: Text, x: Text, y: Text, c: Byte)
    requires a + [c] + x == b + [c] + y
    requires forall i :: 0 <= i < |a| ==> a[i] != c
    requires forall i :: 0 <= i < |b| ==> b[i] != c
    ensures a == b && x == y
  {
    var s := a + [c] + x;
    var t := b + [c] + y;
    assert s[|a|] == c && t[|b|] == c;
    assert forall i :: 0 <= i < |a| ==> s[i] == a[i];
    assert forall i :: 0 <= i < |b| ==> t[i] == b[i];
    assert |a| == |b|;
    assert a == s[..|a|] && b == t[..|a|];
    assert x == s[|a| + 1..] && y == t[|a| + 1..];
  }

  lemma {:induction false} JoinInjective(cs: seq<Text>, ds: seq<Text>)
    requires AllClean(cs) && AllClean(ds) && Join(cs) == Join(ds)
    ensures cs == ds
  {
    if cs != [] && ds != [] {
      assert Clean(cs[0]) && Clean(ds[0]);
      UpToSeparator(cs[0], ds[0], Join(cs[1..]), Join(ds[1..]), MACRO_END);
      JoinInjective(cs[1..], ds[1..]);
      assert cs == [cs[0]] + cs[1..] && ds == [ds[0]] + ds[1..];
    }
  }

  lemma {:induction false} ContentsClean(src: Text, ms: seq<Macro>)
    requires Clean(src)
    ensures AllClean(Contents(src, ms))
  {
    if ms != [] {
      ContentsClean(src, ms[1..]);
      assert Clean(Slice(src, ms[0].start, ms[0].end));
    }
  }

  lemma JoinIsNotClean(cs: seq<Text>)
    requires cs != []
    ensures !Clean(Join(cs))
  {
    assert Join(cs)[|cs[0]|] == MACRO_END;
  }

  lemma HeaderInjective(path: Text, path': Text, body: Text, body': Text)
    requires Clean(path) && Clean(path') && Header(path) + body == Header(path') + body'
    ensures path == path' && body == body'
  {
    var a, b := [VERSION] + path, [VERSION] + path';
    assert a[1..] == path && b[1..] == path';
    UpToSeparator(a, b, body, body', PATH_END);
  }

  ghost predicate SameMacros(src: Text, src': Text) {
    if HasMacros(src) then HasMacros(src') && MacroTexts(src) == MacroTexts(src')
    else !HasMacros(src') && src == src'
  }

  function KeyedBody(src: Text): Text {
    if HasMacros(src) then Join(MacroTexts(src)) else src
  }

  lemma KeyedBodyInjective(src: Text, src': Text)
    requires Clean(src) && Clean(src') && KeyedBody(src) == KeyedBody(src')
    ensures SameMacros(src, src')
  {
    hide Macros, Join, Contents, Clean;
    TextsOfMacros(src);
    TextsOfMacros(src');
    ContentsClean(src, Macros(src, 0));
    ContentsClean(src', Macros(src', 0));
    if HasMacros(src) { JoinIsNotClean(MacroTexts(src)); }
    if HasMacros(src') { JoinIsNotClean(MacroTexts(src')); }
    if HasMacros(src) && HasMacros(src') {
      JoinInjective(MacroTexts(src), MacroTexts(src'));
    }
  }

  /** On texts without separator bytes, two inputs are hashed as the same bytes
      exactly when path and macros agree (or, without macros, the whole source). */
  lemma StreamDeterminesMacros(path: Text, path': Text, src: Text, src': Text)
    requires Clean(path) && Clean(path') && Clean(src) && Clean(src')
    ensures Stream(path, src) == Stream(path', src') <==> path == path' && SameMacros(src, src')
  {
    hide Clean, Macros, Join, Contents, Header;
    if Stream(path, src) == Stream(path', src') {
      HeaderInjective(path, path', KeyedBody(src), KeyedBody(src'));
      KeyedBodyInjective(src, src');
    }
  }
}
