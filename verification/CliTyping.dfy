/** Typing a keyword path in full finds the command that introduced it. */
module CliTyping {
  import opened Prelude
  import opened CliTrie
  import opened CliTree
  import opened CliMatch

  /** A path of keywords with a final node below it. */
  ghost predicate KeywordPath<C(!new)>(trie: Trie<C>, e: Path) {
    && e != []
    && (forall n: nat | 0 < n <= |e| :: e[..n] in trie && trie[e[..n]].kind == CmdPart)
    && e + [TERM_NAME] in trie && trie[e + [TERM_NAME]].kind == Term
  }

  ghost predicate Built<C(!new)>(nodes: seq<Node<C>>, paths: seq<Path>, trie: Trie<C>) {
    |nodes| == |paths| && Named(nodes, paths, trie) && Linked(nodes, paths)
  }

  /** The child of a node on a given path. */
  lemma ChildAt<C(!new)>(nodes: seq<Node<C>>, paths: seq<Path>, trie: Trie<C>, i: nat, name: string) returns (c: nat)
    requires Built(nodes, paths, trie) && i < |nodes| && paths[i] + [name] in trie
    ensures 0 < c < |nodes| && paths[c] == paths[i] + [name] && nodes[c].name == name
    ensures c in nodes[i].children
    ensures forall k: nat | k in nodes[i].children && nodes[k].name == name :: k == c
  {
    c :| 0 < c < |nodes| && paths[c] == paths[i] + [name];
    assert Labelled(nodes, paths, trie, c);
    assert Below(nodes, paths, i, c);
    forall k: nat | k in nodes[i].children && nodes[k].name == name ensures k == c {
      assert Below(nodes, paths, i, k);
    }
  }

  /** An exact keyword decides the search, wherever it stands among its siblings. */
  lemma {:induction false} ScanExact<C>(nodes: seq<Node<C>>, kids: seq<nat>, part: string, accepts: Accepts, found: Found, c: nat)
    requires InRange(kids, |nodes|) && c in kids
    requires c < |nodes| && nodes[c].kind == CmdPart && nodes[c].name == part
    requires forall k: nat | k in kids && nodes[k].name == part :: k == c
    ensures Scan(nodes, kids, part, accepts, found) == Found([c], Some(c))
    decreases |kids|
  {
    var k := kids[0];
    if k != c {
      var last := if nodes[k].kind == LineKind then found.last else Some(k);
      ScanExact(nodes, kids[1..], part, accepts, found, c);
      ScanExact(nodes, kids[1..], part, accepts, Found(found.matches + [k], last), c);
    }
  }

  lemma {:induction false} FinalIsTerm<C>(nodes: seq<Node<C>>, kids: seq<nat>)
    requires InRange(kids, |nodes|)
    ensures var f := FinalOf(nodes, kids);
            && (f.Some? ==> f.value in kids && f.value < |nodes| && nodes[f.value].kind == Term)
            && (f.None? ==> forall k | k in kids :: nodes[k].kind != Term)
  {
    if kids != [] {
      FinalIsTerm(nodes, kids[1..]);
    }
  }

  /** The final node below a node is the one on the path of that node. */
  lemma FinalBelow<C(!new)>(nodes: seq<Node<C>>, paths: seq<Path>, trie: Trie<C>, i: nat)
    requires Built(nodes, paths, trie) && Closed(nodes) && i < |nodes|
    ensures var f := FinalOf(nodes, nodes[i].children);
            && (f.Some? ==> f.value < |nodes| && paths[f.value] == paths[i] + [TERM_NAME])
            && (paths[i] + [TERM_NAME] in trie && trie[paths[i] + [TERM_NAME]].kind == Term ==> f.Some?)
  {
    var kids := nodes[i].children;
    var f := FinalOf(nodes, kids);
    FinalIsTerm(nodes, kids);
    if f.Some? {
      assert Below(nodes, paths, i, f.value);
      assert Labelled(nodes, paths, trie, f.value);
    }
    if paths[i] + [TERM_NAME] in trie {
      var c := ChildAt(nodes, paths, trie, i, TERM_NAME);
      assert Labelled(nodes, paths, trie, c);
    }
  }

  /** One typed keyword: the search goes on below its node. */
  lemma WordGoesDown<C(!new)>(nodes: seq<Node<C>>, paths: seq<Path>, trie: Trie<C>, accepts: Accepts, s: State, part: string)
      returns (c: nat)
    requires Built(nodes, paths, trie) && Closed(nodes) && s.root < |nodes|
    requires paths[s.root] + [part] in trie && trie[paths[s.root] + [part]].kind == CmdPart
    ensures c < |nodes| && paths[c] == paths[s.root] + [part]
    ensures Word(nodes, part, accepts, s) == (Reached(nodes, c, State(PartialMatch, s.final, c)), true)
  {
    c := ChildAt(nodes, paths, trie, s.root, part);
    assert Labelled(nodes, paths, trie, c);
    ScanExact(nodes, nodes[s.root].children, part, accepts, Found([], None), c);
  }

  lemma {:induction false} TypedToTheEnd<C(!new)>(nodes: seq<Node<C>>, paths: seq<Path>, trie: Trie<C>, accepts: Accepts,
                                                  e: Path, n: nat, s: State)
    requires Built(nodes, paths, trie) && Closed(nodes) && KeywordPath(trie, e)
    requires "" !in e && n < |e| && s.root < |nodes| && paths[s.root] == e[..n]
    ensures var r := Words(nodes, e[n..], accepts, s);
            r.status == FullMatch && r.final.Some? && r.final.value < |nodes| && paths[r.final.value] == e + [TERM_NAME]
    decreases |e| - n
  {
    hide Word, Reached, Named, Linked, FinalOf;
    assert e[n..][0] == e[n] && e[n] in e && e[n..][1..] == e[n + 1..];
    assert e[..n] + [e[n]] == e[..n + 1];
    var c := WordGoesDown(nodes, paths, trie, accepts, s, e[n]);
    FinalBelow(nodes, paths, trie, c);
    ReachedIs(nodes, c, State(PartialMatch, s.final, c));
    var next := Reached(nodes, c, State(PartialMatch, s.final, c));
    if n + 1 < |e| {
      TypedToTheEnd(nodes, paths, trie, accepts, e, n + 1, next);
    } else {
      assert e[..n + 1] == e && e[n + 1..] == [];
      assert Words(nodes, [], accepts, next) == next;
    }
  }

  lemma ReachedIs<C>(nodes: seq<Node<C>>, c: nat, s: State)
    requires Closed(nodes) && c < |nodes|
    ensures var f := FinalOf(nodes, nodes[c].children);
            Reached(nodes, c, s) == if f.Some? then State(FullMatch, f, s.root) else s
  {
  }

  // ----- How deep a line can lead ------------------------------------------

  function Typed(line: seq<string>): nat {
    if line == [] then 0 else (if line[0] == "" then 0 else 1) + Typed(line[1..])
  }

  /** The search stands at most as deep as the words typed, the final node one deeper. */
  ghost predicate Depth(paths: seq<Path>, s: State, k: nat) {
    s.root < |paths| && |paths[s.root]| <= k && (s.final.Some? ==> s.final.value < |paths| && |paths[s.final.value]| <= k + 1)
  }

  lemma {:induction false} ScanStays<C>(nodes: seq<Node<C>>, kids: seq<nat>, part: string, accepts: Accepts, found: Found, all: seq<nat>)
    requires InRange(kids, |nodes|)
    requires forall k | k in kids :: k in all
    requires (forall m | m in found.matches :: m in all) && (found.last.Some? ==> found.last.value in all)
    ensures var r := Scan(nodes, kids, part, accepts, found);
            (forall m | m in r.matches :: m in all) && (r.last.Some? ==> r.last.value in all)
    decreases |kids|
  {
    if kids != [] {
      var c := kids[0];
      var last := if nodes[c].kind == LineKind then found.last else Some(c);
      ScanStays(nodes, kids[1..], part, accepts, found, all);
      ScanStays(nodes, kids[1..], part, accepts, Found(found.matches + [c], last), all);
    }
  }

  lemma ReachedDepth<C(!new)>(nodes: seq<Node<C>>, paths: seq<Path>, trie: Trie<C>, c: nat, s: State, k: nat)
    requires Built(nodes, paths, trie) && Closed(nodes) && c < |nodes| && |paths[c]| <= k && Depth(paths, s, k)
    ensures Depth(paths, Reached(nodes, c, s), k)
  {
    FinalBelow(nodes, paths, trie, c);
    ReachedIs(nodes, c, s);
  }

  lemma {:induction false} AmbiguousDepth<C(!new)>(nodes: seq<Node<C>>, paths: seq<Path>, trie: Trie<C>, matches: seq<nat>,
                                                   part: string, s: State, k: nat)
    requires Built(nodes, paths, trie) && Closed(nodes) && InRange(matches, |nodes|) && Depth(paths, s, k)
    requires forall m | m in matches :: m < |paths| && |paths[m]| <= k
    ensures Depth(paths, Ambiguous(nodes, matches, part, s), k)
    decreases |matches|
  {
    hide Built, Reached, FinalOf;
    if matches != [] {
      assert matches[0] in matches;
      ReachedDepth(nodes, paths, trie, matches[0], s, k);
      AmbiguousDepth(nodes, paths, trie, matches[1..], part, s, k);
    }
  }

  lemma WordDepth<C(!new)>(nodes: seq<Node<C>>, paths: seq<Path>, trie: Trie<C>, accepts: Accepts, s: State, part: string, k: nat)
    requires Built(nodes, paths, trie) && Closed(nodes) && Depth(paths, s, k)
    ensures Depth(paths, Word(nodes, part, accepts, s).0, k + 1)
  {
    hide Reached, Ambiguous, Scan;
    var kids := nodes[s.root].children;
    var found := Scan(nodes, kids, part, accepts, Found([], None));
    ScanStays(nodes, kids, part, accepts, Found([], None), kids);
    ScanFinds(nodes, kids, part, accepts, Found([], None));
    forall m | m in kids ensures m < |paths| && |paths[m]| <= k + 1 {
      assert Below(nodes, paths, s.root, m);
    }
    var next := s.(root := if found.last.Some? then found.last.value else s.root);
    if |found.matches| == 1 {
      assert found.matches[0] in found.matches;
      ReachedDepth(nodes, paths, trie, found.matches[0], next.(status := PartialMatch), k + 1);
    } else if found.matches != [] {
      AmbiguousDepth(nodes, paths, trie, found.matches, part, next, k + 1);
    }
  }

  lemma {:induction false} WordsDepth<C(!new)>(nodes: seq<Node<C>>, paths: seq<Path>, trie: Trie<C>, accepts: Accepts,
                                               line: seq<string>, s: State, k: nat)
    requires Built(nodes, paths, trie) && Closed(nodes) && Depth(paths, s, k)
    ensures Depth(paths, Words(nodes, line, accepts, s), k + Typed(line))
    decreases |line|
  {
    hide Word, Named, Linked;
    if line != [] {
      if line[0] == "" {
        WordsDepth(nodes, paths, trie, accepts, line[1..], s, k);
      } else {
        WordDepth(nodes, paths, trie, accepts, s, line[0], k);
        WordsDepth(nodes, paths, trie, accepts, line[1..], Word(nodes, line[0], accepts, s).0, k + 1);
      }
    }
  }

  lemma {:induction false} TypedCounts(line: seq<string>)
    ensures Typed(line) <= |line|
    ensures "" in line ==> Typed(line) < |line|
  {
    if line != [] {
      TypedCounts(line[1..]);
    }
  }

  // ----- The theorem -------------------------------------------------------

  /** Typing a keyword path in full gives a full match at the final node of that path,
      whatever other keywords and value nodes stand beside it, exactly when no part of
      the path is empty: an empty word is skipped. */
  lemma KeywordPathMatches<C(!new)>(nodes: seq<Node<C>>, paths: seq<Path>, trie: Trie<C>, accepts: Accepts, e: Path)
    requires Built(nodes, paths, trie) && Closed(nodes) && KeywordPath(trie, e)
    ensures var r := Matched(nodes, e, accepts);
            (r.status == FullMatch && r.final.Some? && r.final.value < |nodes| && paths[r.final.value] == e + [TERM_NAME])
            <==> "" !in e
  {
    if "" !in e {
      assert e[0..] == e && e[..0] == [];
      TypedToTheEnd(nodes, paths, trie, accepts, e, 0, BEGIN);
    } else {
      WordsDepth(nodes, paths, trie, accepts, e, BEGIN, 0);
      TypedCounts(e);
    }
  }

  /** In a tree built from a list of commands, typing a path of nonempty keywords that
      command i introduced runs command i. */
  lemma TypingRunsIntroducer<C(!new)>(cmds: seq<Command<C>>, i: nat, nodes: seq<Node<C>>, paths: seq<Path>,
                                      accepts: Accepts, e: Path)
    requires Built(nodes, paths, InstalledAll(cmds)) && Closed(nodes)
    requires Introduces(cmds, i, e + [TERM_NAME]) && "" !in e
    requires forall n: nat | 0 < n <= |e| :: e[..n] in InstalledAll(cmds) && InstalledAll(cmds)[e[..n]].kind == CmdPart
    ensures var r := Matched(nodes, e, accepts);
            r.status == FullMatch && r.final.Some? && r.final.value < |nodes| &&
            nodes[r.final.value].command == Some(cmds[i].id)
  {
    hide InstalledAll, Matched;
    TreeContents(cmds, e + [TERM_NAME]);
    assert SomeIntroduces(cmds, e + [TERM_NAME]);
    assert e != [] by {
      assert Expands(Choices(cmds[i].parts), (e + [TERM_NAME])[..|e|]);
    }
    KeywordPathMatches(nodes, paths, InstalledAll(cmds), accepts, e);
    var f := Matched(nodes, e, accepts).final.value;
    assert 0 < f by { assert |paths[f]| > 0 && |paths[0]| == 0; }
    assert Labelled(nodes, paths, InstalledAll(cmds), f);
  }

  /** Installing a node's commands and then typing such a path: the command that is found
      is the one that introduced the path. */
  method InstallThenType<C(!new)>(cmds: seq<Command<C>>, ghost i: nat, e: Path, accepts: Accepts)
      returns (status: MatchStatus, command: Option<C>)
    requires Introduces(cmds, i, e + [TERM_NAME]) && "" !in e
    requires forall n: nat | 0 < n <= |e| :: e[..n] in InstalledAll(cmds) && InstalledAll(cmds)[e[..n]].kind == CmdPart
    ensures status == FullMatch && command == Some(cmds[i].id)
  {
    hide Named, Linked, PrefixClosed, InstalledAll, Matched, Introduces;
    var tree := new CommandTree<C>();
    NothingInstalled<C>();
    tree.AppendToNode(cmds, []);
    assert [] + cmds == cmds;
    var final;
    status, final := GetCustomCommand(tree, e, accepts);
    TypingRunsIntroducer(cmds, i, tree.nodes, tree.paths, accepts, e);
    command := tree.nodes[final.value].command;
  }

  lemma NothingInstalled<C>()
    ensures InstalledAll<C>([]) == map[]
  {
  }
}
