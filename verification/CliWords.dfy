/** Typing words for value nodes, and beginnings of keywords: which node a word leads to,
    and that a line whose words all lead on finds the command. */
module CliWords {
  import opened Prelude
  import opened CliTrie
  import opened CliNames
  import opened CliTree
  import opened CliMatch
  import opened CliTyping

  /** Whether a node of this type and name takes a typed word. WORD, LINE and CHAR take any
      word, a keyword its own beginnings, number nodes what is accepted as their number. */
  predicate Takes(kind: Kind, name: string, word: string, accepts: Accepts) {
    match kind
    case WordKind | LineKind | CharKind => true
    case CmdPart => |word| <= |name| && name[..|word|] == word
    case IntKind => accepts(name, word)
    case IntListKind => ',' in word && accepts(name, word)
    case ListKind => false
    case Term => word == ""
  }

  /** A node is passed over exactly when it does not take the word, and it ends the search
      exactly when it takes it, is no number node and is named like it. */
  lemma VisitMeans<C>(n: Node<C>, word: string, accepts: Accepts)
    ensures VisitOf(n, word, accepts) == Skip <==> !Takes(n.kind, n.name, word, accepts)
    ensures VisitOf(n, word, accepts) == Decide <==>
            Takes(n.kind, n.name, word, accepts) && n.kind !in {IntKind, IntListKind} && n.name == word
  {
  }

  // ----- One word ----------------------------------------------------------

  predicate NodeTakes<C>(nodes: seq<Node<C>>, k: nat, word: string, accepts: Accepts)
    requires k < |nodes|
  {
    Takes(nodes[k].kind, nodes[k].name, word, accepts)
  }

  /** The children that take a word, in their order. */
  function Takers<C>(nodes: seq<Node<C>>, kids: seq<nat>, word: string, accepts: Accepts): (ts: seq<nat>)
    requires InRange(kids, |nodes|)
    ensures InRange(ts, |nodes|)
  {
    if kids == [] then []
    else (if NodeTakes(nodes, kids[0], word, accepts) then [kids[0]] else []) + Takers(nodes, kids[1..], word, accepts)
  }

  lemma {:induction false} ScanNone<C>(nodes: seq<Node<C>>, kids: seq<nat>, word: string, accepts: Accepts, found: Found)
    requires InRange(kids, |nodes|) && forall k | k in kids :: !NodeTakes(nodes, k, word, accepts)
    ensures Scan(nodes, kids, word, accepts, found) == found
    decreases |kids|
  {
    hide VisitOf, Takes;
    if kids != [] {
      assert kids[0] in kids && !NodeTakes(nodes, kids[0], word, accepts);
      VisitMeans(nodes[kids[0]], word, accepts);
      ScanNone(nodes, kids[1..], word, accepts, found);
    }
  }

  /** A single taker is the only match. A LINE node does not move the search down. */
  lemma {:induction false} ScanOne<C>(nodes: seq<Node<C>>, kids: seq<nat>, word: string, accepts: Accepts, c: nat)
    requires InRange(kids, |nodes|) && Once(kids) && c in kids && NodeTakes(nodes, c, word, accepts)
    requires forall k | k in kids && k != c :: !NodeTakes(nodes, k, word, accepts)
    ensures Scan(nodes, kids, word, accepts, Found([], None)) ==
            Found([c], if nodes[c].kind == LineKind then None else Some(c))
    decreases |kids|
  {
    hide VisitOf, Takes;
    var k := kids[0];
    VisitMeans(nodes[k], word, accepts);
    assert Once(kids[1..]) && k in kids && NodeTakes(nodes, k, word, accepts) == (k == c);
    if k == c {
      forall j | j in kids[1..] ensures j != c {
        var i :| 0 <= i < |kids| - 1 && kids[1..][i] == j;
        assert kids[i + 1] != kids[0];
      }
      assert [] + [c] == [c];
      ScanNone(nodes, kids[1..], word, accepts, Found([c], if nodes[c].kind == LineKind then None else Some(c)));
    } else {
      ScanOne(nodes, kids[1..], word, accepts, c);
    }
  }

  /** When no node decides, all takers are collected. */
  lemma {:induction false} ScanAll<C>(nodes: seq<Node<C>>, kids: seq<nat>, word: string, accepts: Accepts, found: Found)
    requires InRange(kids, |nodes|) && forall k | k in kids :: VisitOf(nodes[k], word, accepts) != Decide
    ensures Scan(nodes, kids, word, accepts, found).matches == found.matches + Takers(nodes, kids, word, accepts)
    decreases |kids|
  {
    hide VisitOf, Takes;
    if kids != [] {
      var k := kids[0];
      var last := if nodes[k].kind == LineKind then found.last else Some(k);
      VisitMeans(nodes[k], word, accepts);
      var rest := Takers(nodes, kids[1..], word, accepts);
      if NodeTakes(nodes, k, word, accepts) {
        ScanAll(nodes, kids[1..], word, accepts, Found(found.matches + [k], last));
        assert found.matches + [k] + rest == found.matches + ([k] + rest);
      } else {
        ScanAll(nodes, kids[1..], word, accepts, found);
        assert [] + rest == rest;
      }
    }
  }

  /** A word that nothing takes ends the search without a match. */
  lemma UnknownWord<C>(nodes: seq<Node<C>>, word: string, accepts: Accepts, s: State)
    requires Closed(nodes) && s.root < |nodes|
    requires forall k | k in nodes[s.root].children :: !NodeTakes(nodes, k, word, accepts)
    ensures Word(nodes, word, accepts, s) == (State(NoMatch, s.final, s.root), false)
  {
    hide Takes;
    ScanNone(nodes, nodes[s.root].children, word, accepts, Found([], None));
  }

  /** A word that several nodes take, none of which is named like it, ends the search with a
      partial match. */
  lemma AmbiguousWord<C>(nodes: seq<Node<C>>, word: string, accepts: Accepts, s: State)
    requires Closed(nodes) && s.root < |nodes|
    requires |Takers(nodes, nodes[s.root].children, word, accepts)| > 1
    requires forall k | k in nodes[s.root].children :: nodes[k].name != word
    ensures var (next, more) := Word(nodes, word, accepts, s);
            next.status == PartialMatch && next.final == s.final && !more
  {
    hide Takes, VisitOf;
    var kids := nodes[s.root].children;
    forall k | k in kids ensures VisitOf(nodes[k], word, accepts) != Decide {
      VisitMeans(nodes[k], word, accepts);
    }
    ScanAll(nodes, kids, word, accepts, Found([], None));
    var ts := Takers(nodes, kids, word, accepts);
    assert [] + ts == ts;
    TakersAreKids(nodes, kids, word, accepts);
    var found := Scan(nodes, kids, word, accepts, Found([], None));
    ScanFinds(nodes, kids, word, accepts, Found([], None));
    AmbiguousStays(nodes, ts, word, s.(root := if found.last.Some? then found.last.value else s.root));
  }

  lemma {:induction false} TakersAreKids<C>(nodes: seq<Node<C>>, kids: seq<nat>, word: string, accepts: Accepts)
    requires InRange(kids, |nodes|)
    ensures forall k | k in Takers(nodes, kids, word, accepts) :: k in kids
  {
    hide Takes;
    if kids != [] {
      TakersAreKids(nodes, kids[1..], word, accepts);
    }
  }

  lemma {:induction false} AmbiguousStays<C>(nodes: seq<Node<C>>, matches: seq<nat>, word: string, s: State)
    requires Closed(nodes) && InRange(matches, |nodes|) && forall m | m in matches :: nodes[m].name != word
    ensures Ambiguous(nodes, matches, word, s) == s.(status := PartialMatch)
  {
    if matches != [] {
      assert matches[0] in matches;
      AmbiguousStays(nodes, matches[1..], word, s);
    }
  }

  // ----- The same in terms of paths ----------------------------------------

  /** Of all nodes one step below `p`, only `name` takes the word. */
  ghost predicate OnlyTaker<C(!new)>(trie: Trie<C>, p: Path, name: string, word: string, accepts: Accepts) {
    && p + [name] in trie && Takes(trie[p + [name]].kind, name, word, accepts)
    && forall x | p + [x] in trie && x != name :: !Takes(trie[p + [x]].kind, x, word, accepts)
  }

  /** A nonempty word leads from `p` to `name`: it is that keyword in full, whatever else
      stands beside it, or nothing else takes it. */
  ghost predicate Leads<C(!new)>(trie: Trie<C>, p: Path, name: string, word: string, accepts: Accepts) {
    && word != ""
    && ((p + [name] in trie && trie[p + [name]].kind == CmdPart && name == word) ||
        OnlyTaker(trie, p, name, word, accepts))
  }

  lemma OnlyChildTakes<C(!new)>(nodes: seq<Node<C>>, paths: seq<Path>, trie: Trie<C>, i: nat, c: nat, name: string,
                                word: string, accepts: Accepts)
    requires Built(nodes, paths, trie) && Closed(nodes) && i < |nodes| && OnlyTaker(trie, paths[i], name, word, accepts)
    requires 0 < c < |nodes| && paths[c] == paths[i] + [name] && nodes[c].name == name && c in nodes[i].children
    requires forall k: nat | k in nodes[i].children && nodes[k].name == name :: k == c
    ensures NodeTakes(nodes, c, word, accepts) && nodes[c].kind == trie[paths[c]].kind
    ensures forall k | k in nodes[i].children && k != c :: !NodeTakes(nodes, k, word, accepts)
  {
    hide Takes, Linked;
    assert Labelled(nodes, paths, trie, c);
    forall k | k in nodes[i].children && k != c ensures !NodeTakes(nodes, k, word, accepts) {
      ChildBelow(nodes, paths, i, k);
      assert Labelled(nodes, paths, trie, k);
      assert paths[k] == paths[i] + [nodes[k].name];
    }
  }

  lemma ChildBelow<C>(nodes: seq<Node<C>>, paths: seq<Path>, i: nat, k: nat)
    requires |nodes| == |paths| && Linked(nodes, paths) && i < |nodes| && k in nodes[i].children
    ensures Below(nodes, paths, i, k)
  {
  }

  /** Where a leading word takes the search: to its node, which a match of a LINE node does
      not make the new root. */
  lemma WordLeads<C(!new)>(nodes: seq<Node<C>>, paths: seq<Path>, trie: Trie<C>, accepts: Accepts, s: State,
                           name: string, word: string) returns (c: nat)
    requires Built(nodes, paths, trie) && Closed(nodes) && s.root < |nodes|
    requires Leads(trie, paths[s.root], name, word, accepts)
    ensures c < |nodes| && paths[c] == paths[s.root] + [name]
    ensures var root := if trie[paths[c]].kind == LineKind then s.root else c;
            Word(nodes, word, accepts, s) == (Reached(nodes, c, State(PartialMatch, s.final, root)), true)
  {
    hide Takes, Named, Linked, OnlyTaker, Scan, Reached;
    NamedLeads(trie, paths[s.root], name, word, accepts);
    c := ChildAt(nodes, paths, trie, s.root, name);
    if OnlyTaker(trie, paths[s.root], name, word, accepts) {
      OnlyChildTakes(nodes, paths, trie, s.root, c, name, word, accepts);
      ChildrenOnce(nodes, paths, s.root);
      ScanOne(nodes, nodes[s.root].children, word, accepts, c);
    } else {
      var d := WordGoesDown(nodes, paths, trie, accepts, s, word);
      SamePath(nodes, paths, trie, c, d);
    }
  }

  lemma NamedLeads<C(!new)>(trie: Trie<C>, p: Path, name: string, word: string, accepts: Accepts)
    requires Leads(trie, p, name, word, accepts)
    ensures p + [name] in trie
  {
  }

  lemma ChildrenOnce<C>(nodes: seq<Node<C>>, paths: seq<Path>, i: nat)
    requires |nodes| == |paths| && Linked(nodes, paths) && i < |nodes|
    ensures Once(nodes[i].children)
  {
  }

  lemma SamePath<C(!new)>(nodes: seq<Node<C>>, paths: seq<Path>, trie: Trie<C>, c: nat, d: nat)
    requires Built(nodes, paths, trie) && c < |nodes| && d < |nodes| && paths[c] == paths[d]
    ensures c == d
  {
  }

  // ----- A whole line ------------------------------------------------------

  /** A path that a command ends, with LINE nowhere but at its end. */
  ghost predicate CommandPath<C(!new)>(trie: Trie<C>, e: Path) {
    && e != [] && e + [TERM_NAME] in trie && trie[e + [TERM_NAME]].kind == Term
    && forall n: nat | 0 < n < |e| :: e[..n] in trie && trie[e[..n]].kind != LineKind
  }

  /** The place in the path that the j-th word is for: LINE, at the end, takes all words
      from its own on. */
  function PlaceOf(e: Path, j: nat): nat
    requires e != []
  {
    if j < |e| then j else |e| - 1
  }

  /** A line whose words lead along the path, with more words than names only when the path
      ends in LINE. */
  ghost predicate Fitting<C(!new)>(trie: Trie<C>, e: Path, line: seq<string>, accepts: Accepts) {
    && e != [] && |e| <= |line|
    && (|e| < |line| ==> e in trie && trie[e].kind == LineKind)
    && forall j | 0 <= j < |line| :: Leads(trie, e[..PlaceOf(e, j)], e[PlaceOf(e, j)], line[j], accepts)
  }

  ghost predicate EndsAt<C>(nodes: seq<Node<C>>, paths: seq<Path>, e: Path, s: State) {
    && s.status == FullMatch && s.final.Some?
    && s.final.value < |nodes| == |paths| && paths[s.final.value] == e + [TERM_NAME]
  }

  /** The word for the last name of the path: a full match. */
  lemma LastWord<C(!new)>(nodes: seq<Node<C>>, paths: seq<Path>, trie: Trie<C>, accepts: Accepts,
                          e: Path, word: string, s: State)
    requires Built(nodes, paths, trie) && Closed(nodes) && CommandPath(trie, e)
    requires s.root < |nodes| && paths[s.root] == e[..|e| - 1] && Leads(trie, e[..|e| - 1], e[|e| - 1], word, accepts)
    ensures var (next, more) := Word(nodes, word, accepts, s);
            more && EndsAt(nodes, paths, e, next) && (e in trie && trie[e].kind == LineKind ==> next.root == s.root)
  {
    hide Word, Leads, Named, Linked, Reached, FinalOf, Closed;
    assert e[..|e| - 1] + [e[|e| - 1]] == e;
    NamedLeads(trie, e[..|e| - 1], e[|e| - 1], word, accepts);
    var c := WordLeads(nodes, paths, trie, accepts, s, e[|e| - 1], word);
    FinalBelow(nodes, paths, trie, c);
    ReachedIs(nodes, c, State(PartialMatch, s.final, if trie[paths[c]].kind == LineKind then s.root else c));
  }

  /** More words for a LINE at the end of the path. */
  lemma {:induction false} MoreForLine<C(!new)>(nodes: seq<Node<C>>, paths: seq<Path>, trie: Trie<C>, accepts: Accepts,
                                                e: Path, line: seq<string>, j: nat, s: State)
    requires Built(nodes, paths, trie) && Closed(nodes) && CommandPath(trie, e) && Fitting(trie, e, line, accepts)
    requires |e| <= j <= |line| && EndsAt(nodes, paths, e, s)
    requires s.root < |nodes| && (j < |line| ==> paths[s.root] == e[..|e| - 1])
    ensures EndsAt(nodes, paths, e, Words(nodes, line[j..], accepts, s))
    decreases |line| - j
  {
    hide Word, Leads, Named, Linked, CommandPath, Closed;
    if j == |line| {
      NoWords(nodes, line[j..], accepts, s);
    } else {
      PathNotEmpty(trie, e);
      LastWord(nodes, paths, trie, accepts, e, line[j], s);
      OneWord(nodes, line[j..], accepts, s);
      LeadsNonempty(trie, e[..|e| - 1], e[|e| - 1], line[j], accepts);
      assert line[j..][1..] == line[j + 1..];
      MoreForLine(nodes, paths, trie, accepts, e, line, j + 1, Word(nodes, line[j], accepts, s).0);
    }
  }

  lemma PathNotEmpty<C(!new)>(trie: Trie<C>, e: Path)
    requires CommandPath(trie, e)
    ensures e != []
  {
  }

  lemma LeadsNonempty<C(!new)>(trie: Trie<C>, p: Path, name: string, word: string, accepts: Accepts)
    requires Leads(trie, p, name, word, accepts)
    ensures word != ""
  {
  }

  lemma NoWords<C>(nodes: seq<Node<C>>, line: seq<string>, accepts: Accepts, s: State)
    requires Closed(nodes) && s.root < |nodes| && line == []
    ensures Words(nodes, line, accepts, s) == s
  {
  }

  lemma OneWord<C>(nodes: seq<Node<C>>, line: seq<string>, accepts: Accepts, s: State)
    requires Closed(nodes) && s.root < |nodes| && line != []
    ensures line[0] != "" && Word(nodes, line[0], accepts, s).1 ==>
              Words(nodes, line, accepts, s) == Words(nodes, line[1..], accepts, Word(nodes, line[0], accepts, s).0)
  {
    hide Word;
  }

  lemma {:induction false} TypedOn<C(!new)>(nodes: seq<Node<C>>, paths: seq<Path>, trie: Trie<C>, accepts: Accepts,
                                            e: Path, line: seq<string>, j: nat, s: State)
    requires Built(nodes, paths, trie) && Closed(nodes) && CommandPath(trie, e) && Fitting(trie, e, line, accepts)
    requires j < |e| && s.root < |nodes| && paths[s.root] == e[..j]
    ensures EndsAt(nodes, paths, e, Words(nodes, line[j..], accepts, s))
    decreases |e| - j
  {
    hide Word, Leads, Named, Linked, Closed, Reached;
    assert PlaceOf(e, j) == j && line[j..][1..] == line[j + 1..];
    LeadsNonempty(trie, e[..j], e[j], line[j], accepts);
    OneWord(nodes, line[j..], accepts, s);
    if j == |e| - 1 {
      LastWord(nodes, paths, trie, accepts, e, line[j], s);
      assert e[..|e|] == e;
      MoreForLine(nodes, paths, trie, accepts, e, line, |e|, Word(nodes, line[j], accepts, s).0);
    } else {
      var c := WordLeads(nodes, paths, trie, accepts, s, e[j], line[j]);
      assert e[..j] + [e[j]] == e[..j + 1];
      ReachedKeepsRoot(nodes, c, State(PartialMatch, s.final, c));
      TypedOn(nodes, paths, trie, accepts, e, line, j + 1, Word(nodes, line[j], accepts, s).0);
    }
  }

  lemma ReachedKeepsRoot<C>(nodes: seq<Node<C>>, c: nat, s: State)
    requires Closed(nodes) && c < |nodes|
    ensures Reached(nodes, c, s).root == s.root
  {
  }

  /** A line whose words lead along a command's path, with words for the value nodes and
      full keywords or unambiguous beginnings for the keywords, is a full match at the
      path's final node. */
  lemma FittingLineMatches<C(!new)>(nodes: seq<Node<C>>, paths: seq<Path>, trie: Trie<C>, accepts: Accepts,
                                    e: Path, line: seq<string>)
    requires Built(nodes, paths, trie) && Closed(nodes) && CommandPath(trie, e) && Fitting(trie, e, line, accepts)
    ensures EndsAt(nodes, paths, e, Matched(nodes, line, accepts))
  {
    hide Words, Fitting, Closed, Named, Linked;
    PathNotEmpty(trie, e);
    assert e[..0] == [] && line[0..] == line;
    RootIsEmpty(nodes, paths, trie);
    TypedOn(nodes, paths, trie, accepts, e, line, 0, BEGIN);
  }

  lemma RootIsEmpty<C(!new)>(nodes: seq<Node<C>>, paths: seq<Path>, trie: Trie<C>)
    requires Built(nodes, paths, trie)
    ensures 0 < |nodes| && paths[0] == []
  {
  }

  /** And the command found is the one that introduced the path. */
  lemma FittingLineRunsIntroducer<C(!new)>(cmds: seq<Command<C>>, i: nat, nodes: seq<Node<C>>, paths: seq<Path>,
                                           accepts: Accepts, e: Path, line: seq<string>)
    requires Built(nodes, paths, InstalledAll(cmds)) && Closed(nodes)
    requires Introduces(cmds, i, e + [TERM_NAME]) && CommandPath(InstalledAll(cmds), e)
    requires Fitting(InstalledAll(cmds), e, line, accepts)
    ensures var r := Matched(nodes, line, accepts);
            r.status == FullMatch && r.final.Some? && r.final.value < |nodes| &&
            nodes[r.final.value].command == Some(cmds[i].id)
  {
    hide InstalledAll, Matched, Fitting, CommandPath, Introduces, Linked;
    TreeContents(cmds, e + [TERM_NAME]);
    FittingLineMatches(nodes, paths, InstalledAll(cmds), accepts, e, line);
    var f := Matched(nodes, line, accepts).final.value;
    assert 0 < f by { assert |paths[f]| > 0 && |paths[0]| == 0; }
    assert Labelled(nodes, paths, InstalledAll(cmds), f);
  }

  /** Installing a node's commands and then typing such a line. */
  method InstallThenTypeWords<C(!new)>(cmds: seq<Command<C>>, ghost i: nat, ghost e: Path, line: seq<string>, accepts: Accepts)
      returns (status: MatchStatus, command: Option<C>)
    requires Introduces(cmds, i, e + [TERM_NAME]) && CommandPath(InstalledAll(cmds), e)
    requires Fitting(InstalledAll(cmds), e, line, accepts)
    ensures status == FullMatch && command == Some(cmds[i].id)
  {
    hide Named, Linked, PrefixClosed, InstalledAll, Matched, Introduces, CommandPath, Fitting;
    var tree := new CommandTree<C>();
    NothingInstalled<C>();
    tree.AppendToNode(cmds, []);
    assert [] + cmds == cmds;
    var final;
    status, final := GetCustomCommand(tree, line, accepts);
    FittingLineRunsIntroducer(cmds, i, tree.nodes, tree.paths, accepts, e, line);
    command := tree.nodes[final.value].command;
  }

  // ----- An example --------------------------------------------------------

  /** The command "user WORD" alone: every name typed behind "user", or behind a beginning
      of it, finds the command. */
  lemma UserWord<C(!new)>(id: C, nodes: seq<Node<C>>, paths: seq<Path>, accepts: Accepts, user: string, name: string)
    requires Built(nodes, paths, InstalledAll([Command(["user", "WORD"], id)])) && Closed(nodes)
    requires user in {"u", "us", "use", "user"} && name != ""
    ensures EndsAt(nodes, paths, ["user", "WORD"], Matched(nodes, [user, name], accepts))
  {
    hide InstalledAll, Matched, Takes, Built;
    var c := Command(["user", "WORD"], id);
    var trie := InstalledAll([c]);
    var e := ["user", "WORD"];
    UserTree(c, trie);
    UserTakes(user, name, accepts);
    assert e[..0] == [] && e[..1] == ["user"] && [] + ["user"] == ["user"] && ["user"] + ["WORD"] == e;
    assert e + [TERM_NAME] == ["user", "WORD", TERM_NAME];
    assert Leads(trie, e[..0], e[0], user, accepts) by {
      forall x | [] + [x] in trie ensures x == "user" {
        assert [] + [x] == [x];
      }
    }
    assert Leads(trie, e[..1], e[1], name, accepts) by {
      forall x | ["user"] + [x] in trie ensures x == "WORD" {
        assert ["user"] + [x] == ["user", x];
      }
    }
    hide Leads;
    FittingLineMatches(nodes, paths, trie, accepts, e, [user, name]);
  }

  lemma UserTakes(user: string, name: string, accepts: Accepts)
    requires user in {"u", "us", "use", "user"}
    ensures user != "" && Takes(CmdPart, "user", user, accepts) && Takes(WordKind, "WORD", name, accepts)
  {
  }

  lemma UserKinds()
    ensures KindOf("user") == CmdPart && KindOf("WORD") == WordKind
  {
    KindsOfNames("user");
    assert "user"[0] == 'u' && "WORD"[0] == 'W' && "LINE"[0] == 'L' && "CHAR"[0] == 'C';
    assert "user"[..3] != "INT" by { assert "user"[..3][0] == 'u'; }
    assert "user"[..4] != "LIST" by { assert "user"[..4][0] == 'u'; }
  }

  lemma UserTree<C(!new)>(c: Command<C>, trie: Trie<C>)
    requires c.parts == ["user", "WORD"] && trie == InstalledAll([c])
    ensures ["user"] in trie && trie[["user"]].kind == CmdPart
    ensures ["user", "WORD"] in trie && trie[["user", "WORD"]].kind == WordKind
    ensures ["user", "WORD", TERM_NAME] in trie && trie[["user", "WORD", TERM_NAME]].kind == Term
    ensures forall x :: [x] in trie ==> x == "user"
    ensures forall x :: ["user", x] in trie ==> x == "WORD"
  {
    hide InstalledAll, KindOf;
    var choices := [["user"], ["WORD"]];
    assert Barred(["user"]) == "user" && Barred(["WORD"]) == "WORD";
    assert CliNames.Written(c, choices);
    hide CliNames.Written;
    UserKinds();
    KindsInTree(c, choices, ["user"]);
    KindsInTree(c, choices, ["user", "WORD"]);
    TreeOfOne(c, choices, ["user", "WORD", TERM_NAME]);
    forall x | [x] in trie ensures x == "user" {
      TreeOfOne(c, choices, [x]);
    }
    forall x | ["user", x] in trie ensures x == "WORD" {
      TreeOfOne(c, choices, ["user", x]);
    }
  }

  /** A node that is not final has the type of its name. */
  lemma KindsInTree<C(!new)>(c: Command<C>, choices: seq<seq<string>>, p: Path)
    requires CliNames.Written(c, choices) && 0 < |p| <= |choices| && forall i | 0 <= i < |p| :: p[i] in choices[i]
    ensures p in InstalledAll([c]) && InstalledAll([c])[p].kind == KindOf(p[|p| - 1])
  {
    assert [c][..0] == [];
    ChoicesOfWritten(c, choices);
    InstalledIs<C>(map[], c, p);
    assert InstalledAll([c]) == Installed(InstalledAll([]), c);
  }
}
