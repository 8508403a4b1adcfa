/**
 Expansion of import nodes: a depth-first walk over files that may import each
 other in cycles, with a set of the files already taken in.
 */
module Imports {
  import opened Basics

  type Path = string

  /** A node of a parsed file; only imports are told apart. */
  datatype Node = Import(filename: string) | Other(id: nat)

  /** The file system as the expansion sees it: which paths exist, what the files
      that can be read parse to, how a directory and a name combine, the directory
      of a file, and the extra directories to search. */
  datatype Env = Env(
    exists_: set<Path>,
    asts: map<Path, seq<Node>>,
    join: (string, string) -> Path,
    parent: Path -> string,
    searchPaths: seq<string>)

  datatype Result = Ok(ast: seq<Node>) | NotFound(filename: string) | CannotOpen(path: Path)

  // ----- finding the file -----

  /** The first of the directories that holds the file; "" if none does. */
  function FirstHit(env: Env, dirs: seq<string>, raw: string): Path {
    if dirs == [] then ""
    else if env.join(dirs[0], raw) in env.exists_ && env.join(dirs[0], raw) != "" then env.join(dirs[0], raw)
    else FirstHit(env, dirs[1..], raw)
  }

  /** The directory of the importing file, the search paths, the name as it is. */
  function Resolve(env: Env, base: string, raw: string): (p: Path)
    ensures p == "" || p in env.exists_
  {
    var dirs := (if base != "" then [base] else []) + env.searchPaths;
    FirstHitExists(env, dirs, raw);
    var hit := FirstHit(env, dirs, raw);
    if hit != "" then hit
    else if raw in env.exists_ then raw
    else ""
  }

  lemma {:induction false} FirstHitExists(env: Env, dirs: seq<string>, raw: string)
    ensures FirstHit(env, dirs, raw) == "" || FirstHit(env, dirs, raw) in env.exists_
  {
    if dirs != [] { FirstHitExists(env, dirs[1..], raw); }
  }

  predicate HeldIn(env: Env, dir: string, raw: string) {
    env.join(dir, raw) in env.exists_ && env.join(dir, raw) != ""
  }

  /** The search order: a directory is used only if none before it holds the file,
      and the name as it is only if no directory does. */
  lemma {:induction false} FirstHitInOrder(env: Env, dirs: seq<string>, raw: string) returns (i: nat)
    ensures i <= |dirs| && forall j :: 0 <= j < i ==> !HeldIn(env, dirs[j], raw)
    ensures i < |dirs| ==> HeldIn(env, dirs[i], raw) && FirstHit(env, dirs, raw) == env.join(dirs[i], raw)
    ensures i == |dirs| ==> FirstHit(env, dirs, raw) == ""
  {
    i := 0;
    if dirs != [] && !HeldIn(env, dirs[0], raw) {
      i := FirstHitInOrder(env, dirs[1..], raw);
      assert forall j :: 0 < j < i + 1 ==> dirs[j] == dirs[1..][j - 1];
      i := i + 1;
    }
  }

  lemma ResolvedInOrder(env: Env, base: string, raw: string) returns (i: nat)
    ensures var dirs := (if base != "" then [base] else []) + env.searchPaths;
            && i <= |dirs| && (forall j :: 0 <= j < i ==> !HeldIn(env, dirs[j], raw))
            && (i < |dirs| ==> HeldIn(env, dirs[i], raw) && Resolve(env, base, raw) == env.join(dirs[i], raw))
            && (i == |dirs| ==> Resolve(env, base, raw) == if raw in env.exists_ then raw else "")
  {
    i := FirstHitInOrder(env, (if base != "" then [base] else []) + env.searchPaths, raw);
  }

  // ----- the expansion tree -----

  /** What became of each node: kept, skipped because its file was already in, or
      replaced by the expansion of its file. */
  datatype Item = Keep(node: Node) | Skip(path: Path) | Enter(path: Path, items: seq<Item>)

  datatype Outcome =
    | Done(items: seq<Item>, imported: set<Path>)
    | Failed(result: Result, imported: set<Path>)

  function Prepend(items: seq<Item>, o: Outcome): Outcome {
    if o.Done? then Done(items + o.items, o.imported) else o
  }

  function Expand(env: Env, ast: seq<Node>, base: string, imported: set<Path>): (o: Outcome)
    ensures imported <= o.imported
    ensures o.Failed? ==> !o.result.Ok?
    decreases |env.exists_ - imported|, |ast|
  {
    if ast == [] then Done([], imported)
    else match ast[0]
      case Other(_) => Prepend([Keep(ast[0])], Expand(env, ast[1..], base, imported))
      case Import(raw) =>
        var p := Resolve(env, base, raw);
        if p == "" then Failed(NotFound(raw), imported)
        else if p in imported then Prepend([Skip(p)], Expand(env, ast[1..], base, imported))
        else if p !in env.asts then Failed(CannotOpen(p), imported + {p})
        else
          FewerLeft(env.exists_, imported, p, imported + {p});
          var inner := Expand(env, env.asts[p], env.parent(p), imported + {p});
          if inner.Failed? then inner
          else
            FewerLeft(env.exists_, imported, p, inner.imported);
            Prepend([Enter(p, inner.items)], Expand(env, ast[1..], base, inner.imported))
  }

  lemma FewerLeft(all: set<Path>, less: set<Path>, p: Path, more: set<Path>)
    requires p in all && p !in less && less + {p} <= more
    ensures |all - more| < |all - less|
  {
    SubsetSize(all - more, all - less - {p});
    assert |all - less - {p}| == |all - less| - 1;
  }

  function Flatten(items: seq<Item>): seq<Node>
    decreases items
  {
    if items == [] then [] else FlattenItem(items[0]) + Flatten(items[1..])
  }

  function FlattenItem(item: Item): seq<Node>
    decreases item
  {
    match item
    case Keep(n) => [n]
    case Skip(_) => []
    case Enter(_, inner) => Flatten(inner)
  }

  lemma {:induction false} FlattenAppend(a: seq<Item>, b: seq<Item>)
    ensures Flatten(a + b) == Flatten(a) + Flatten(b)
  {
    hide FlattenItem;
    if a == [] {
      assert a + b == b;
    } else {
      var head, rest := FlattenItem(a[0]), a[1..];
      assert (a + b)[0] == a[0] && (a + b)[1..] == rest + b;
      FlattenAppend(rest, b);
      assert head + (Flatten(rest) + Flatten(b)) == (head + Flatten(rest)) + Flatten(b);
    }
  }

  lemma FlattenPush(items: seq<Item>, item: Item)
    ensures Flatten(items + [item]) == Flatten(items) + FlattenItem(item)
  {
    hide FlattenItem;
    FlattenAppend(items, [item]);
    assert [item][1..] == [];
  }

  // ----- the loop -----

  method TryPaths(env: Env, base: string, raw: string) returns (resolved: Path)
    ensures resolved == Resolve(env, base, raw)
  {
    resolved := "";
    ghost var dirs := (if base != "" then [base] else []) + env.searchPaths;
    if base != "" {
      if env.join(base, raw) in env.exists_ {
        resolved := env.join(base, raw);
      }
      assert dirs[1..] == env.searchPaths;
    } else {
      assert dirs == env.searchPaths;
    }
    var i := 0;
    while i < |env.searchPaths|
      invariant 0 <= i <= |env.searchPaths|
      invariant FirstHit(env, dirs, raw) == if resolved != "" then resolved
                else FirstHit(env, env.searchPaths[i..], raw)
    {
      if resolved == "" {
        if env.join(env.searchPaths[i], raw) in env.exists_ {
          resolved := env.join(env.searchPaths[i], raw);
        }
      }
      assert env.searchPaths[i..][1..] == env.searchPaths[i + 1..];
      i := i + 1;
    }
    if resolved == "" && raw in env.exists_ {
      resolved := raw;
    }
  }

  method ResolveImports(env: Env, ast: seq<Node>, imported0: set<Path>, base: string)
    returns (r: Result, imported: set<Path>)
    ensures var o := Expand(env, ast, base, imported0);
            && imported == o.imported
            && r == if o.Done? then Ok(Flatten(o.items)) else o.result
    decreases |env.exists_ - imported0|
  {
    hide Flatten, Resolve, Expand, Prepend;
    imported := imported0;
    var result: seq<Node> := [];
    ghost var items: seq<Item> := [];
    ghost var whole := Expand(env, ast, base, imported0);
    assert ast[0..] == ast;
    NothingExpanded(env);
    PrependNothing(whole);
    var i := 0;
    while i < |ast|
      invariant 0 <= i <= |ast|
      invariant imported0 <= imported
      invariant whole == Prepend(items, Expand(env, ast[i..], base, imported))
      invariant result == Flatten(items)
    {
      assert ast[i..][1..] == ast[i + 1..];
      ghost var rest := Expand(env, ast[i..], base, imported);
      match ast[i] {
        case Other(_) =>
          result := result + [ast[i]];
          FlattenPush(items, Keep(ast[i]));
          KeepStep(env, ast[i..], base, imported);
          PrependTwice(items, [Keep(ast[i])], Expand(env, ast[i + 1..], base, imported));
          items := items + [Keep(ast[i])];
        case Import(raw) =>
          var p := TryPaths(env, base, raw);
          ImportStep(env, ast[i..], base, imported);
          if p == "" {
            PrependFailed(items, rest);
            return NotFound(raw), imported;
          }
          if p in imported {
            FlattenPush(items, Skip(p));
            PrependTwice(items, [Skip(p)], Expand(env, ast[i + 1..], base, imported));
            items := items + [Skip(p)];
          } else {
            FewerLeft(env.exists_, imported, p, imported + {p});
            SubsetSize(env.exists_ - imported, env.exists_ - imported0);
            ghost var before := imported;
            imported := imported + {p};
            if p !in env.asts {
              PrependFailed(items, rest);
              return CannotOpen(p), imported;
            }
            var inner;
            ghost var o := Expand(env, env.asts[p], env.parent(p), imported);
            inner, imported := ResolveImports(env, env.asts[p], imported, env.parent(p));
            if !inner.Ok? {
              PrependFailed(items, rest);
              return inner, imported;
            }
            result := result + inner.ast;
            FlattenPush(items, Enter(p, o.items));
            PrependTwice(items, [Enter(p, o.items)], Expand(env, ast[i + 1..], base, imported));
            items := items + [Enter(p, o.items)];
          }
      }
      i := i + 1;
    }
    assert ast[|ast|..] == [];
    ExpandNothing(env, base, imported, items);
    return Ok(result), imported;
  }

  lemma PrependNothing(o: Outcome)
    ensures Prepend([], o) == o
  {
  }

  lemma PrependFailed(items: seq<Item>, o: Outcome)
    requires o.Failed?
    ensures Prepend(items, o) == o
  {
  }

  lemma ExpandNothing(env: Env, base: string, imported: set<Path>, items: seq<Item>)
    ensures Prepend(items, Expand(env, [], base, imported)) == Done(items, imported)
  {
    assert items + [] == items;
  }

  lemma KeepStep(env: Env, ast: seq<Node>, base: string, imported: set<Path>)
    requires |ast| > 0 && ast[0].Other?
    ensures Expand(env, ast, base, imported) == Prepend([Keep(ast[0])], Expand(env, ast[1..], base, imported))
  {
  }

  /** The cases of an import node. */
  lemma ImportStep(env: Env, ast: seq<Node>, base: string, imported: set<Path>)
    requires |ast| > 0 && ast[0].Import?
    ensures var p := Resolve(env, base, ast[0].filename);
            var o := Expand(env, ast, base, imported);
            && (p == "" ==> o == Failed(NotFound(ast[0].filename), imported))
            && (p != "" && p in imported ==> o == Prepend([Skip(p)], Expand(env, ast[1..], base, imported)))
            && (p != "" && p !in imported && p !in env.asts ==> o == Failed(CannotOpen(p), imported + {p}))
            && (p != "" && p !in imported && p in env.asts ==>
                  var inner := Expand(env, env.asts[p], env.parent(p), imported + {p});
                  o == if inner.Failed? then inner
                       else Prepend([Enter(p, inner.items)], Expand(env, ast[1..], base, inner.imported)))
  {
    hide Resolve;
  }

  lemma PrependTwice(a: seq<Item>, b: seq<Item>, o: Outcome)
    ensures Prepend(a, Prepend(b, o)) == Prepend(a + b, o)
  {
    if o.Done? { assert a + (b + o.items) == a + b + o.items; }
  }

  // ----- what the result contains -----

  /** The files expanded, in the order in which the walk enters them. */
  function Labels(items: seq<Item>): seq<Path>
    decreases items
  {
    if items == [] then []
    else (match items[0] case Enter(p, inner) => [p] + Labels(inner) case _ => []) + Labels(items[1..])
  }

  /** A file's own nodes. */
  function Own(ast: seq<Node>): seq<Node> {
    if ast == [] then []
    else (if ast[0].Other? then [ast[0]] else []) + Own(ast[1..])
  }

  ghost function OwnOf(env: Env, file: Path): multiset<Node> {
    if file in env.asts then multiset(Own(env.asts[file])) else multiset{}
  }

  ghost function OwnAll(env: Env, files: seq<Path>): multiset<Node> {
    if files == [] then multiset{} else OwnOf(env, files[0]) + OwnAll(env, files[1..])
  }

  lemma {:induction false} OwnAllAppend(env: Env, a: seq<Path>, b: seq<Path>)
    ensures OwnAll(env, a + b) == OwnAll(env, a) + OwnAll(env, b)
  {
    hide OwnOf;
    if a == [] {
      assert a + b == b;
    } else {
      OwnAllAppend(env, a[1..], b);
      assert (a + b)[1..] == a[1..] + b;
    }
  }

  /** The parts of an expansion that entered a file first. */
  lemma ExpandEnter(env: Env, ast: seq<Node>, base: string, imported: set<Path>)
    requires |ast| > 0 && ast[0].Import? && Expand(env, ast, base, imported).Done?
    requires Resolve(env, base, ast[0].filename) !in imported
    ensures var p := Resolve(env, base, ast[0].filename);
            && p != "" && p in env.asts && p in env.exists_
            && var inner := Expand(env, env.asts[p], env.parent(p), imported + {p});
            && inner.Done? && |env.exists_ - (imported + {p})| < |env.exists_ - imported|
            && var rest := Expand(env, ast[1..], base, inner.imported);
            && rest.Done? && |env.exists_ - inner.imported| < |env.exists_ - imported|
            && Expand(env, ast, base, imported) == Done([Enter(p, inner.items)] + rest.items, rest.imported)
  {
    var p := Resolve(env, base, ast[0].filename);
    FewerLeft(env.exists_, imported, p, imported + {p});
    FewerLeft(env.exists_, imported, p, Expand(env, env.asts[p], env.parent(p), imported + {p}).imported);
  }

  /** The parts of an expansion whose first node is kept or skipped. */
  lemma ExpandPass(env: Env, ast: seq<Node>, base: string, imported: set<Path>)
    requires |ast| > 0 && Expand(env, ast, base, imported).Done?
    requires ast[0].Import? ==> Resolve(env, base, ast[0].filename) in imported
    ensures var rest := Expand(env, ast[1..], base, imported);
            var item := if ast[0].Other? then Keep(ast[0]) else Skip(Resolve(env, base, ast[0].filename));
            rest.Done? && Expand(env, ast, base, imported) == Done([item] + rest.items, rest.imported)
  {
  }

  predicate Enters(env: Env, ast: seq<Node>, base: string, imported: set<Path>) {
    |ast| > 0 && ast[0].Import? && Resolve(env, base, ast[0].filename) !in imported
  }

  ghost predicate NoImports(ast: seq<Node>) {
    forall i :: 0 <= i < |ast| ==> ast[i].Other?
  }

  /** On success no import node is left. */
  lemma {:induction false} NoImportsLeft(env: Env, ast: seq<Node>, base: string, imported: set<Path>)
    requires Expand(env, ast, base, imported).Done?
    ensures NoImports(Flatten(Expand(env, ast, base, imported).items))
    decreases |env.exists_ - imported|, |ast|
  {
    if ast != [] {
      if Enters(env, ast, base, imported) {
        ExpandEnter(env, ast, base, imported);
        var p := Resolve(env, base, ast[0].filename);
        var inner := Expand(env, env.asts[p], env.parent(p), imported + {p});
        NoImportsLeft(env, env.asts[p], env.parent(p), imported + {p});
        NoImportsLeft(env, ast[1..], base, inner.imported);
        ConsTail(Enter(p, inner.items), Expand(env, ast[1..], base, inner.imported).items);
      } else {
        ExpandPass(env, ast, base, imported);
        NoImportsLeft(env, ast[1..], base, imported);
      }
    }
  }

  lemma ConsTail(x: Item, xs: seq<Item>)
    ensures ([x] + xs)[0] == x && ([x] + xs)[1..] == xs
  {
  }

  ghost function Elems(s: seq<Path>): set<Path> {
    set p | p in s
  }

  ghost predicate ListsExactly(s: seq<Path>, more: set<Path>, less: set<Path>) {
    Distinct(s) && Elems(s) == more - less
  }

  lemma ListsJoin(p: Path, a: seq<Path>, b: seq<Path>, s0: set<Path>, s1: set<Path>, s2: set<Path>)
    requires p !in s0 && s0 + {p} <= s1 <= s2
    requires ListsExactly(a, s1, s0 + {p}) && ListsExactly(b, s2, s1)
    ensures ListsExactly([p] + a + b, s2, s0)
  {
    var all := [p] + a + b;
    forall i, j | 0 <= i < j < |all| ensures all[i] != all[j] {
      if j <= |a| {
        assert all[j] == a[j - 1] && a[j - 1] in Elems(a);
        assert i > 0 ==> all[i] == a[i - 1];
      } else {
        assert all[j] == b[j - 1 - |a|] && b[j - 1 - |a|] in Elems(b);
        if 0 < i <= |a| {
          assert all[i] == a[i - 1] && a[i - 1] in Elems(a);
        } else if i > |a| {
          assert all[i] == b[i - 1 - |a|];
        }
      }
    }
    assert Elems(all) == {p} + Elems(a) + Elems(b);
  }

  /** imported grows by exactly the files entered, each entered once. */
  lemma {:induction false} EachFileOnce(env: Env, ast: seq<Node>, base: string, imported: set<Path>)
    requires Expand(env, ast, base, imported).Done?
    ensures var o := Expand(env, ast, base, imported);
            ListsExactly(Labels(o.items), o.imported, imported)
    decreases |env.exists_ - imported|, |ast|
  {
    if ast != [] {
      if Enters(env, ast, base, imported) {
        ExpandEnter(env, ast, base, imported);
        var p := Resolve(env, base, ast[0].filename);
        var inner := Expand(env, env.asts[p], env.parent(p), imported + {p});
        var rest := Expand(env, ast[1..], base, inner.imported);
        EachFileOnce(env, env.asts[p], env.parent(p), imported + {p});
        EachFileOnce(env, ast[1..], base, inner.imported);
        ConsTail(Enter(p, inner.items), rest.items);
        ListsJoin(p, Labels(inner.items), Labels(rest.items), imported, inner.imported, rest.imported);
      } else {
        ExpandPass(env, ast, base, imported);
        EachFileOnce(env, ast[1..], base, imported);
      }
    }
  }

  lemma OwnOfEntered(env: Env, p: Path, inner: seq<Item>, rest: seq<Item>)
    requires p in env.asts
    requires multiset(Flatten(inner)) == multiset(Own(env.asts[p])) + OwnAll(env, Labels(inner))
    ensures multiset(Flatten([Enter(p, inner)] + rest)) ==
            multiset(Flatten(rest)) + multiset(Own(env.asts[p])) + OwnAll(env, Labels(inner))
    ensures OwnAll(env, Labels([Enter(p, inner)] + rest)) ==
            multiset(Own(env.asts[p])) + OwnAll(env, Labels(inner)) + OwnAll(env, Labels(rest))
  {
    ConsTail(Enter(p, inner), rest);
    var files := [p] + Labels(inner);
    OwnAllAppend(env, files, Labels(rest));
    assert files[0] == p && files[1..] == Labels(inner);
  }

  lemma NothingExpanded(env: Env)
    ensures Flatten([]) == [] && Labels([]) == [] && OwnAll(env, []) == multiset{}
  {
  }

  lemma OwnOfPassed(n: Node, item: Item, rest: seq<Item>)
    requires item == Keep(n) || item.Skip?
    ensures Flatten([item] + rest) == (if item.Keep? then [n] else []) + Flatten(rest)
    ensures Labels([item] + rest) == Labels(rest)
  {
    ConsTail(item, rest);
  }

  /** The result holds the own nodes of the root and of each file entered, once. */
  lemma {:induction false} OwnNodesOnce(env: Env, ast: seq<Node>, base: string, imported: set<Path>)
    requires Expand(env, ast, base, imported).Done?
    ensures var o := Expand(env, ast, base, imported);
            multiset(Flatten(o.items)) == multiset(Own(ast)) + OwnAll(env, Labels(o.items))
    decreases |env.exists_ - imported|, |ast|
  {
    hide Flatten, Labels, OwnAll, Resolve;
    NothingExpanded(env);
    if ast != [] {
      if Enters(env, ast, base, imported) {
        ExpandEnter(env, ast, base, imported);
        var p := Resolve(env, base, ast[0].filename);
        var inner := Expand(env, env.asts[p], env.parent(p), imported + {p});
        var rest := Expand(env, ast[1..], base, inner.imported);
        OwnNodesOnce(env, env.asts[p], env.parent(p), imported + {p});
        OwnNodesOnce(env, ast[1..], base, inner.imported);
        OwnOfEntered(env, p, inner.items, rest.items);
      } else {
        ExpandPass(env, ast, base, imported);
        OwnNodesOnce(env, ast[1..], base, imported);
        var rest := Expand(env, ast[1..], base, imported);
        OwnOfPassed(ast[0], if ast[0].Other? then Keep(ast[0])
                    else Skip(Resolve(env, base, ast[0].filename)), rest.items);
      }
    }
  }

  // ----- the order is that of a depth-first walk -----

  /** An import met by the walk, and whether it was expanded there. */
  datatype Visit = Visit(path: Path, entered: bool)

  function Visits(items: seq<Item>): seq<Visit>
    decreases items
  {
    if items == [] then []
    else (match items[0]
          case Keep(_) => []
          case Skip(p) => [Visit(p, false)]
          case Enter(p, inner) => [Visit(p, true)] + Visits(inner)) + Visits(items[1..])
  }

  ghost function Met(vs: seq<Visit>): set<Path> {
    set i | 0 <= i < |vs| :: vs[i].path
  }

  ghost predicate EntersFirst(vs: seq<Visit>, imported: set<Path>, i: nat)
    requires i < |vs|
  {
    vs[i].entered <==> vs[i].path !in imported + Met(vs[..i])
  }

  /** An import is expanded exactly where the walk meets its file first. */
  ghost predicate FirstVisits(vs: seq<Visit>, imported: set<Path>) {
    forall i :: 0 <= i < |vs| ==> EntersFirst(vs, imported, i)
  }

  lemma FirstVisitsAppend(a: seq<Visit>, b: seq<Visit>, s0: set<Path>)
    requires FirstVisits(a, s0) && FirstVisits(b, s0 + Met(a))
    ensures FirstVisits(a + b, s0) && Met(a + b) == Met(a) + Met(b)
  {
    var all := a + b;
    MetAppend(a, b);
    forall i | 0 <= i < |all| ensures EntersFirst(all, s0, i) {
      if i < |a| {
        assert all[..i] == a[..i];
        assert EntersFirst(a, s0, i);
      } else {
        assert all[..i] == a + b[..i - |a|];
        MetAppend(a, b[..i - |a|]);
        assert EntersFirst(b, s0 + Met(a), i - |a|);
        assert s0 + Met(all[..i]) == s0 + Met(a) + Met(b[..i - |a|]);
      }
    }
  }

  lemma MetAppend(a: seq<Visit>, b: seq<Visit>)
    ensures Met(a + b) == Met(a) + Met(b)
  {
    forall p | p in Met(a) ensures p in Met(a + b) {
      var i :| 0 <= i < |a| && a[i].path == p;
      assert (a + b)[i].path == p;
    }
    forall p | p in Met(b) ensures p in Met(a + b) {
      var i :| 0 <= i < |b| && b[i].path == p;
      assert (a + b)[|a| + i].path == p;
    }
  }

  lemma OneVisit(vs: seq<Visit>, imported: set<Path>)
    requires |vs| == 1 && (vs[0].entered <==> vs[0].path !in imported)
    ensures FirstVisits(vs, imported) && Met(vs) == {vs[0].path}
  {
    assert Met(vs[..0]) == {};
    assert vs[0].path in Met(vs);
  }

  lemma {:induction false} FirstVisitExpands(env: Env, ast: seq<Node>, base: string, imported: set<Path>)
    requires Expand(env, ast, base, imported).Done?
    ensures var o := Expand(env, ast, base, imported);
            FirstVisits(Visits(o.items), imported) && o.imported == imported + Met(Visits(o.items))
    decreases |env.exists_ - imported|, |ast|
  {
    hide FirstVisits, Met;
    if ast == [] {
      NoVisits(imported);
    } else if Enters(env, ast, base, imported) {
      ExpandEnter(env, ast, base, imported);
      var p := Resolve(env, base, ast[0].filename);
      var inner := Expand(env, env.asts[p], env.parent(p), imported + {p});
      var rest := Expand(env, ast[1..], base, inner.imported);
      FirstVisitExpands(env, env.asts[p], env.parent(p), imported + {p});
      FirstVisitExpands(env, ast[1..], base, inner.imported);
      ConsTail(Enter(p, inner.items), rest.items);
      OneVisit([Visit(p, p !in imported)], imported);
      FirstVisitsAppend([Visit(p, true)], Visits(inner.items), imported);
      assert imported + Met([Visit(p, true)] + Visits(inner.items)) == inner.imported;
      FirstVisitsAppend([Visit(p, true)] + Visits(inner.items), Visits(rest.items), imported);
    } else {
      ExpandPass(env, ast, base, imported);
      FirstVisitExpands(env, ast[1..], base, imported);
      var rest := Expand(env, ast[1..], base, imported);
      if ast[0].Import? {
        var p := Resolve(env, base, ast[0].filename);
        ConsTail(Skip(p), rest.items);
        OneVisit([Visit(p, p !in imported)], imported);
        assert imported + {p} == imported;
        FirstVisitsAppend([Visit(p, false)], Visits(rest.items), imported);
      } else {
        ConsTail(Keep(ast[0]), rest.items);
        assert Visits(Expand(env, ast, base, imported).items) == Visits(rest.items);
      }
    }
  }

  lemma NoVisits(imported: set<Path>)
    ensures FirstVisits([], imported) && Met([]) == {}
  {
  }

  /** The tree mirrors the files: node by node, and an entered file by its own
      nodes, resolved from its own directory. */
  ghost predicate Mirrors(env: Env, ast: seq<Node>, base: string, items: seq<Item>)
    decreases items
  {
    && |items| == |ast|
    && forall i :: 0 <= i < |items| ==>
         match items[i]
         case Keep(n) => n == ast[i] && n.Other?
         case Skip(p) => ast[i].Import? && p == Resolve(env, base, ast[i].filename)
         case Enter(p, inner) =>
           && ast[i].Import? && p == Resolve(env, base, ast[i].filename)
           && p in env.asts && Mirrors(env, env.asts[p], env.parent(p), inner)
  }

  lemma {:induction false} ExpansionMirrorsFiles(env: Env, ast: seq<Node>, base: string, imported: set<Path>)
    requires Expand(env, ast, base, imported).Done?
    ensures Mirrors(env, ast, base, Expand(env, ast, base, imported).items)
    decreases |env.exists_ - imported|, |ast|
  {
    if ast != [] {
      if Enters(env, ast, base, imported) {
        ExpandEnter(env, ast, base, imported);
        var p := Resolve(env, base, ast[0].filename);
        var inner := Expand(env, env.asts[p], env.parent(p), imported + {p});
        ExpansionMirrorsFiles(env, env.asts[p], env.parent(p), imported + {p});
        ExpansionMirrorsFiles(env, ast[1..], base, inner.imported);
      } else {
        ExpandPass(env, ast, base, imported);
        ExpansionMirrorsFiles(env, ast[1..], base, imported);
      }
    }
  }

  // ----- which files come in -----

  ghost predicate Names(env: Env, ast: seq<Node>, base: string, p: Path) {
    exists i :: 0 <= i < |ast| && ast[i].Import? && Resolve(env, base, ast[i].filename) == p
  }

  ghost predicate FileNames(env: Env, p: Path, q: Path) {
    p in env.asts && Names(env, env.asts[p], env.parent(p), q)
  }

  /** A chain of imports from the root to the last file, none already imported. */
  ghost predicate Chain(env: Env, ast: seq<Node>, base: string, imported: set<Path>, path: seq<Path>) {
    && |path| > 0 && Names(env, ast, base, path[0])
    && (forall i :: 0 <= i < |path| ==> path[i] !in imported)
    && (forall i :: 0 <= i < |path| - 1 ==> FileNames(env, path[i], path[i + 1]))
  }

  ghost predicate ReachedAvoiding(env: Env, ast: seq<Node>, base: string, imported: set<Path>, p: Path) {
    exists path :: Chain(env, ast, base, imported, path) && path[|path| - 1] == p
  }

  /** What the root or a file newly taken in imports is in. */
  ghost predicate Closed(env: Env, ast: seq<Node>, base: string, imported: set<Path>, more: set<Path>) {
    && (forall q :: Names(env, ast, base, q) ==> q in more)
    && (forall p, q :: FileNames(env, p, q) ==> p in more ==> p in imported || q in more)
  }

  lemma {:induction false} ExpansionIsClosed(env: Env, ast: seq<Node>, base: string, imported: set<Path>)
    requires Expand(env, ast, base, imported).Done?
    ensures Closed(env, ast, base, imported, Expand(env, ast, base, imported).imported)
    decreases |env.exists_ - imported|, |ast|
  {
    if ast != [] {
      var p := if ast[0].Import? then Resolve(env, base, ast[0].filename) else "";
      if Enters(env, ast, base, imported) {
        ExpandEnter(env, ast, base, imported);
        var inner := Expand(env, env.asts[p], env.parent(p), imported + {p});
        ExpansionIsClosed(env, env.asts[p], env.parent(p), imported + {p});
        ExpansionIsClosed(env, ast[1..], base, inner.imported);
      } else {
        ExpandPass(env, ast, base, imported);
        ExpansionIsClosed(env, ast[1..], base, imported);
      }
      forall q | Names(env, ast, base, q) ensures q in Expand(env, ast, base, imported).imported {
        var i :| 0 <= i < |ast| && ast[i].Import? && Resolve(env, base, ast[i].filename) == q;
        if i > 0 {
          assert ast[1..][i - 1] == ast[i];
          assert Names(env, ast[1..], base, q);
        }
      }
    }
  }

  lemma {:induction false} ChainStaysInside(env: Env, ast: seq<Node>, base: string, imported: set<Path>,
                                            path: seq<Path>, i: nat)
    requires Expand(env, ast, base, imported).Done? && Chain(env, ast, base, imported, path) && i < |path|
    ensures path[i] in Expand(env, ast, base, imported).imported
  {
    ExpansionIsClosed(env, ast, base, imported);
    if i > 0 {
      ChainStaysInside(env, ast, base, imported, path, i - 1);
      assert FileNames(env, path[i - 1], path[i - 1 + 1]);
    }
  }

  lemma {:induction false} EnteredIsReached(env: Env, ast: seq<Node>, base: string, imported: set<Path>, f: Path)
    returns (path: seq<Path>)
    requires Expand(env, ast, base, imported).Done?
    requires f in Expand(env, ast, base, imported).imported && f !in imported
    ensures Chain(env, ast, base, imported, path) && path[|path| - 1] == f
    decreases |env.exists_ - imported|, |ast|
  {
    if Enters(env, ast, base, imported) {
      ExpandEnter(env, ast, base, imported);
      var p := Resolve(env, base, ast[0].filename);
      var inner := Expand(env, env.asts[p], env.parent(p), imported + {p});
      assert Names(env, ast, base, p);
      if f == p {
        path := [p];
      } else if f in inner.imported {
        var tail := EnteredIsReached(env, env.asts[p], env.parent(p), imported + {p}, f);
        path := [p] + tail;
        forall i | 0 <= i < |path| - 1 ensures FileNames(env, path[i], path[i + 1]) {
          if i > 0 { assert FileNames(env, tail[i - 1], tail[i - 1 + 1]); }
        }
      } else {
        path := EnteredIsReached(env, ast[1..], base, inner.imported, f);
        NamesLater(env, ast, base, path[0]);
      }
    } else {
      ExpandPass(env, ast, base, imported);
      path := EnteredIsReached(env, ast[1..], base, imported, f);
      NamesLater(env, ast, base, path[0]);
    }
  }

  lemma NamesLater(env: Env, ast: seq<Node>, base: string, q: Path)
    requires |ast| > 0 && Names(env, ast[1..], base, q)
    ensures Names(env, ast, base, q)
  {
    var i :| 0 <= i < |ast[1..]| && ast[1..][i].Import? && Resolve(env, base, ast[1..][i].filename) == q;
    assert ast[i + 1] == ast[1..][i];
  }

  /** On success, imported has grown by exactly the files that a chain of imports
      reaches without passing through a file imported before. */
  lemma ImportedIsReached(env: Env, ast: seq<Node>, base: string, imported: set<Path>, f: Path)
    requires Expand(env, ast, base, imported).Done?
    ensures f in Expand(env, ast, base, imported).imported <==>
            f in imported || ReachedAvoiding(env, ast, base, imported, f)
  {
    if f in Expand(env, ast, base, imported).imported && f !in imported {
      var path := EnteredIsReached(env, ast, base, imported, f);
    }
    if ReachedAvoiding(env, ast, base, imported, f) {
      var path :| Chain(env, ast, base, imported, path) && path[|path| - 1] == f;
      ChainStaysInside(env, ast, base, imported, path, |path| - 1);
    }
  }
}
