/**
 The macro scanner against the text itself: where a string ends, which braces of a body
 count, where a body ends and which lines are annotations, character by character.
 */
module MacroText {
  import opened Fnv
  import opened MacroCache

  // ----- strings -----

  /** The backslashes directly before p, back to from at most. */
  function Backslashes(src: Text, from: nat, p: nat): nat
    requires p <= |src|
  {
    if p > from && src[p - 1] == '\\' then 1 + Backslashes(src, from, p - 1) else 0
  }

  /** A quote ends a string if an even number of backslashes stands directly before it. */
  predicate Closes(src: Text, from: nat, p: nat) {
    p < |src| && src[p] == '"' && Backslashes(src, from, p) % 2 == 0
  }

  /** A string ends at the first such quote, or with the text if there is none. */
  lemma {:induction false} StringEndIsFirst(src: Text, from: nat)
    requires from <= |src|
    ensures var r := StringEnd(src, from);
            (r == |src| || Closes(src, from, r)) && forall p :: from <= p < r ==> !Closes(src, from, p)
    decreases |src| - from
  {
    if from < |src| && src[from] != '"' {
      var r := StringEnd(src, from);
      var next := if src[from] == '\\' && from + 1 < |src| then from + 2 else from + 1;
      StringEndIsFirst(src, next);
      forall p | next <= p < |src| ensures Closes(src, from, p) <==> Closes(src, next, p) {
        if src[from] == '\\' { EscapeKeepsParity(src, from, p); } else { OtherKeepsCount(src, from, p); }
      }
      assert !Closes(src, from, from);
      if next == from + 2 { assert Backslashes(src, from, from) == 0 && !Closes(src, from, from + 1); }
    }
  }

  lemma {:induction false} EscapeKeepsParity(src: Text, from: nat, p: nat)
    requires from + 2 <= p <= |src| && src[from] == '\\'
    ensures Backslashes(src, from, p) % 2 == Backslashes(src, from + 2, p) % 2
  {
    if p > from + 2 {
      if src[p - 1] == '\\' { EscapeKeepsParity(src, from, p - 1); }
    } else {
      assert Backslashes(src, from, from) == 0 && Backslashes(src, from, from + 1) == 1;
    }
  }

  lemma {:induction false} OtherKeepsCount(src: Text, from: nat, p: nat)
    requires from < p <= |src| && src[from] != '\\'
    ensures Backslashes(src, from, p) == Backslashes(src, from + 1, p)
  {
    if p > from + 1 && src[p - 1] == '\\' { OtherKeepsCount(src, from, p - 1); }
  }

  // ----- bodies -----

  datatype Mode = Code | InString(escaped: bool) | InComment

  /** The mode after the character at i. */
  function ModeAfter(src: Text, m: Mode, i: nat): Mode
    requires i < |src|
  {
    match m
    case Code =>
      if src[i] == '"' then InString(false)
      else if src[i] == '/' && i + 1 < |src| && src[i + 1] == '/' then InComment
      else Code
    case InString(escaped) =>
      if escaped then InString(false) else if src[i] == '"' then Code else InString(src[i] == '\\')
    case InComment => if src[i] == '\n' then Code else InComment
  }

  /** The mode before the character at p, read from the position from on. */
  function ModeAt(src: Text, from: nat, p: nat): Mode
    requires from <= p <= |src|
  {
    if p == from then Code else ModeAfter(src, ModeAt(src, from, p - 1), p - 1)
  }

  /** The braces opened less the braces closed before p, outside strings and comments. */
  function Braces(src: Text, from: nat, p: nat): int
    requires from <= p <= |src|
  {
    if p == from then 0
    else
      Braces(src, from, p - 1) +
      if ModeAt(src, from, p - 1) != Code then 0
      else if src[p - 1] == '{' then 1
      else if src[p - 1] == '}' then -1
      else 0
  }

  /** Where a body with depth braces open ends: behind the brace that closes the last of
      them, or with the text, one past it inside a string. */
  ghost predicate BodyEnds(src: Text, from: nat, depth: nat, end: nat)
    requires from <= |src|
  {
    || (from < end <= |src| && depth + Braces(src, from, end) == 0 && OpenBefore(src, from, depth, end))
    || (OpenBefore(src, from, depth, |src| + 1) && end == if ModeAt(src, from, |src|).InString? then |src| + 1
        else |src|)
  }

  ghost predicate OpenBefore(src: Text, from: nat, depth: nat, end: nat)
    requires from <= |src|
  {
    forall p :: from <= p < end && p <= |src| ==> depth + Braces(src, from, p) > 0
  }

  /** Between two characters of a string or a comment no brace counts. */
  ghost predicate Quiet(src: Text, from: nat, i: nat, r: nat)
    requires from <= i <= r <= |src|
  {
    forall p :: i <= p <= r ==> Braces(src, from, p) == Braces(src, from, i)
  }

  lemma {:induction false} StringModes(src: Text, from: nat, i: nat)
    requires from <= i <= |src| && ModeAt(src, from, i) == InString(false)
    ensures var r := StringEnd(src, i);
            Quiet(src, from, i, r) && (if r < |src| then ModeAt(src, from, r) == InString(false)
                                       else ModeAt(src, from, r).InString?)
    decreases |src| - i
  {
    if i < |src| && src[i] != '"' {
      if src[i] == '\\' && i + 1 < |src| {
        assert ModeAt(src, from, i + 1) == InString(true);
        StringModes(src, from, i + 2);
        assert Braces(src, from, i + 2) == Braces(src, from, i + 1) == Braces(src, from, i);
      } else if src[i] != '\\' {
        StringModes(src, from, i + 1);
        assert Braces(src, from, i + 1) == Braces(src, from, i);
      } else {
        assert StringEnd(src, i + 1) == i + 1;
      }
    }
  }

  lemma {:induction false} CommentModes(src: Text, from: nat, i: nat)
    requires from <= i <= |src| && ModeAt(src, from, i) == InComment
    ensures var r := FindChar(src, '\n', i); i <= r && Quiet(src, from, i, r) && ModeAt(src, from, r) == InComment
    decreases |src| - i
  {
    if i < |src| && src[i] != '\n' {
      CommentModes(src, from, i + 1);
      assert Braces(src, from, i + 1) == Braces(src, from, i);
    }
  }

  /** The scan stands at code, or at the line break behind a comment. */
  ghost predicate AtRest(src: Text, from: nat, i: nat)
    requires from <= i
  {
    if i < |src| then ModeAt(src, from, i) == Code || (ModeAt(src, from, i) == InComment && src[i] == '\n')
    else from <= |src| && (i == |src| + 1 <==> ModeAt(src, from, |src|).InString?)
  }

  /** One step of the scan counts the brace that it stands at and no other. */
  lemma StepCounts(src: Text, from: nat, i: nat)
    requires from <= i < |src| && AtRest(src, from, i)
    ensures var r := After(src, i);
            && AtRest(src, from, r)
            && forall p :: i < p <= r && p <= |src| ==> Braces(src, from, p) == Braces(src, from, i) + Weight(src, i)
  {
    hide StringEnd, FindChar;
    assert ModeAt(src, from, i + 1) == ModeAfter(src, ModeAt(src, from, i), i);
    assert Braces(src, from, i + 1) == Braces(src, from, i) + Weight(src, i);
    if src[i] == '"' {
      StringModes(src, from, i + 1);
      var r := StringEnd(src, i + 1);
      if r < |src| {
        assert ModeAt(src, from, r + 1) == Code;
        assert Braces(src, from, r + 1) == Braces(src, from, r);
      }
    } else if CommentAt(src, i) {
      CommentModes(src, from, i + 1);
      FindOn(src, i);
    }
  }

  lemma ClosingStep(src: Text, i: nat)
    requires i < |src|
    ensures Weight(src, i) < 0 ==> After(src, i) == i + 1
  {
  }

  lemma FindOn(src: Text, i: nat)
    requires i < |src| && src[i] != '\n'
    ensures FindChar(src, '\n', i) == FindChar(src, '\n', i + 1)
  {
  }

  /** A body ends where its characters say. */
  lemma {:induction false} BodyEndsFrom(src: Text, from: nat, i: nat, open: nat, depth: nat)
    requires from <= i <= |src| + 1 && from <= |src| && AtRest(src, from, i)
    requires depth == open + Braces(src, from, if i < |src| then i else |src|)
    requires OpenBefore(src, from, open, i) && (i == from ==> depth > 0)
    ensures BodyEnds(src, from, open, ReadBody(src, i, depth).end)
    decreases |src| + 1 - i
  {
    hide After, ModeAt, Braces;
    if i < |src| && depth > 0 {
      StepCounts(src, from, i);
      ClosingStep(src, i);
      var r := After(src, i);
      BodyEndsFrom(src, from, r, open, depth + Weight(src, i));
    }
  }

  /** The range of a macro ends where the body behind its first open brace ends. */
  lemma RangeEnds(src: Text, h: nat)
    requires HitAt(src, h) && FindChar(src, '{', h + 6) < |src|
    ensures var m := MacroAt(src, h); m.open + 1 <= |src| && BodyEnds(src, m.open + 1, 1, m.end)
  {
    hide FindChar, ReadBody;
    var from := FindChar(src, '{', h + 6) + 1;
    assert AtRest(src, from, from);
    BodyEndsFrom(src, from, from, 1, 1);
  }

  /** There is one such end only. */
  lemma EndIsUnique(src: Text, from: nat, depth: nat, e: nat, f: nat)
    requires from <= |src| && depth > 0 && BodyEnds(src, from, depth, e) && BodyEnds(src, from, depth, f)
    ensures e == f
  {
    hide Braces, ModeAt;
  }

  // ----- annotations -----

  /** An at sign at k is the first character of its line that is neither a blank nor a
      tab, and the line goes on to e. */
  predicate FirstOnLine(src: Text, b: nat, k: nat, e: nat)
    requires e < |src|
  {
    && b <= k < e && (b == 0 || src[b - 1] == '\n') && src[k] == '@'
    && (forall i :: b <= i < k ==> src[i] == ' ' || src[i] == '\t')
    && (forall i :: b <= i < e ==> src[i] != '\n')
  }

  lemma AnnotationLineIff(src: Text, e: nat)
    requires e < |src|
    ensures AnnotationLine(src, e) <==> exists b, k :: FirstOnLine(src, b, k, e)
  {
    hide LineStart, SkipBlanks;
    var ls := LineStart(src, e);
    if AnnotationLine(src, e) { assert FirstOnLine(src, ls, SkipBlanks(src, ls, e), e); }
    if b, k :| FirstOnLine(src, b, k, e) {
      LineStartsThere(src, b, e, ls);
      FirstIsThere(src, ls, k, e, SkipBlanks(src, ls, e));
    }
  }

  lemma LineStartsThere(src: Text, b: nat, e: nat, ls: nat)
    requires b < e < |src| && (b == 0 || src[b - 1] == '\n') && forall i :: b <= i < e ==> src[i] != '\n'
    requires ls <= e && (ls == 0 || src[ls - 1] == '\n') && forall i :: ls <= i < e ==> src[i] != '\n'
    ensures b == ls
  {
  }

  lemma FirstIsThere(src: Text, ls: nat, k: nat, e: nat, first: nat)
    requires ls <= k < e < |src| && !Blank(src[k]) && forall i :: ls <= i < k ==> Blank(src[i])
    requires ls <= first <= e && (first < e ==> !Blank(src[first])) && forall i :: ls <= i < first ==> Blank(src[i])
    ensures first == k
  {
  }

  // ----- an example -----

  /** A body with an escaped quote and a brace inside a string: the range is the whole text,
      the name is f, and the key hashes a version byte, the path, and the text. */
  lemma EscapedQuote(path: Text)
    ensures var src: Text := "@Macro f() { \"\\\"}\" }";
            && |src| == 20 && Macros(src, 0) == [Macro(0, 0, 11, 20)] && NameOf(src, 6, 11) == "f"
            && Stream(path, src) == [2 as char] + path + [0xFF as char] + src + [0xFE as char]
  {
    var src: Text := "@Macro f() { \"\\\"}\" }";
    assert HitAt(src, 0);
    assert FindMacro(src, 0) == 0;
    var open := FindChar(src, '{', 6);
    assert src[11] == '{' && forall i :: 6 <= i < 11 ==> src[i] != '{';
    assert open == 11;
    EscapedEnds(src);
    MacrosFrom(src, 0);
    NoMacroBehind(src);
    NameIsF(src);
    StreamOfOne(path, src, Macro(0, 0, 11, 20));
  }

  lemma NameIsF(src: Text)
    requires src == "@Macro f() { \"\\\"}\" }"
    ensures NameOf(src, 6, 11) == "f"
  {
    var paren := FindChar(src, '(', 6);
    assert src[8] == '(' && forall i :: 6 <= i < 8 ==> src[i] != '(';
    assert paren == 8 && TrimBack(src, 6, 8) == 8;
    assert NameStart(src, 6, 7) == 7;
    assert src[7..8] == "f";
  }

  lemma StreamOfOne(path: Text, src: Text, m: Macro)
    requires Macros(src, 0) == [m] && m.start == 0 && m.end == |src|
    ensures Stream(path, src) == [2 as char] + path + [0xFF as char] + src + [0xFE as char]
  {
    hide Macros;
    assert Slice(src, 0, |src|) == src;
    assert [m][1..] == [];
    assert Contents(src, [m]) == [src] + [];
    assert [src][1..] == [];
    assert Join([src]) == src + [MACRO_END] + [];
  }

  lemma EscapedEnds(src: Text)
    requires src == "@Macro f() { \"\\\"}\" }"
    ensures ReadBody(src, 12, 1).end == 20
  {
    assert StringEnd(src, 16) == 17;
    assert StringEnd(src, 14) == 17;
    assert ReadBody(src, 20, 0).end == 20;
    assert ReadBody(src, 19, 1) == ReadBody(src, 20, 0);
    assert ReadBody(src, 18, 1) == ReadBody(src, 19, 1);
    assert ReadBody(src, 13, 1) == ReadBody(src, 18, 1);
  }

  lemma NoMacroBehind(src: Text)
    requires |src| == 20
    ensures Macros(src, 20) == []
  {
    assert FindMacro(src, 20) == 20;
  }
}
