/** cli.c, matching a typed line: cmd_find_matches_worker and cli_get_custom_command. */
module CliMatch {
  import opened Prelude
  import opened CliTrie
  import opened CliTree

  datatype MatchStatus = FullMatch | PartialMatch | NoMatch

  /** The numbers a node takes: for a node of this name and type, whether the typed text
      is a number, or a list of numbers, in its range. */
  type Accepts = (string, string) -> bool

  /** The matches so far and the node whose children are searched next. */
  datatype Found = Found(matches: seq<nat>, last: Option<nat>)

  predicate InRange(indices: seq<nat>, n: nat) {
    forall i | 0 <= i < |indices| :: indices[i] < n
  }

  /** What the worker does with one child. */
  datatype Visit = Skip | Collect | Decide

  function VisitOf<C>(n: Node<C>, part: string, accepts: Accepts): Visit {
    match n.kind
    case IntKind => if accepts(n.name, part) then Collect else Skip
    case IntListKind => if ',' in part && accepts(n.name, part) then Collect else Skip
    case _ =>
      if (n.kind == Term && part == "") || n.kind in {WordKind, LineKind, CharKind} || (n.kind == CmdPart && part <= n.name)
      then (if n.name == part then Decide else Collect)
      else Skip
  }

  predicate Closed<C>(nodes: seq<Node<C>>) {
    forall i | 0 <= i < |nodes| :: InRange(nodes[i].children, |nodes|)
  }

  /** The children in order; an exact name drops the partial matches and ends the search. */
  function Scan<C>(nodes: seq<Node<C>>, kids: seq<nat>, part: string, accepts: Accepts, found: Found): Found
    requires InRange(kids, |nodes|)
    decreases |kids|
  {
    if kids == [] then found
    else
      var c := kids[0];
      var last := if nodes[c].kind == LineKind then found.last else Some(c);
      match VisitOf(nodes[c], part, accepts)
      case Skip => Scan(nodes, kids[1..], part, accepts, found)
      case Collect => Scan(nodes, kids[1..], part, accepts, Found(found.matches + [c], last))
      case Decide => Found([c], last)
  }

  /** Where matching stands: the status, the final node it found, and the node whose
      children come next. */
  datatype State = State(status: MatchStatus, final: Option<nat>, root: nat)

  /** The final node among the children of a matched node, the last one if several. */
  function FinalOf<C>(nodes: seq<Node<C>>, kids: seq<nat>): Option<nat>
    requires InRange(kids, |nodes|)
  {
    if kids == [] then None
    else
      var later := FinalOf(nodes, kids[1..]);
      if later.Some? then later else if nodes[kids[0]].kind == Term then Some(kids[0]) else None
  }

  /** A matched node makes the match full when it has a final child. */
  function Reached<C>(nodes: seq<Node<C>>, node: nat, s: State): State
    requires node < |nodes| && InRange(nodes[node].children, |nodes|)
  {
    match FinalOf(nodes, nodes[node].children)
    case None => s
    case Some(f) => s.(status := FullMatch, final := Some(f))
  }

  /** Several matches: the first keyword among them that equals the typed text and has a
      final child. */
  function Ambiguous<C>(nodes: seq<Node<C>>, matches: seq<nat>, part: string, s: State): (r: State)
    requires Closed(nodes) && InRange(matches, |nodes|)
    ensures r.root == s.root
  {
    if matches == [] then s.(status := PartialMatch)
    else
      var m := matches[0];
      if nodes[m].kind == CmdPart && nodes[m].name == part && FinalOf(nodes, nodes[m].children).Some?
      then Reached(nodes, m, s)
      else Ambiguous(nodes, matches[1..], part, s)
  }

  lemma LinkedIsClosed<C(!new)>(nodes: seq<Node<C>>, paths: seq<Path>)
    requires |nodes| == |paths| && Linked(nodes, paths)
    ensures Closed(nodes)
  {
    forall i, k | 0 <= i < |nodes| && 0 <= k < |nodes[i].children| ensures nodes[i].children[k] < |nodes| {
      assert nodes[i].children[k] in nodes[i].children;
      assert Below(nodes, paths, i, nodes[i].children[k]);
    }
  }

  lemma {:induction false} ScanFinds<C>(nodes: seq<Node<C>>, kids: seq<nat>, part: string, accepts: Accepts, found: Found)
    requires InRange(kids, |nodes|)
    ensures var r := Scan(nodes, kids, part, accepts, found);
            && (InRange(found.matches, |nodes|) ==> InRange(r.matches, |nodes|))
            && (r.last.Some? ==> r.last == found.last || r.last.value < |nodes|)
    decreases |kids|
  {
    if kids != [] {
      var c := kids[0];
      var last := if nodes[c].kind == LineKind then found.last else Some(c);
      ScanFinds(nodes, kids[1..], part, accepts, found);
      ScanFinds(nodes, kids[1..], part, accepts, Found(found.matches + [c], last));
    }
  }

  /** One nonempty typed word. The flag says whether the search goes on. */
  function Word<C>(nodes: seq<Node<C>>, part: string, accepts: Accepts, s: State): (r: (State, bool))
    requires Closed(nodes) && s.root < |nodes|
    ensures r.0.root < |nodes|
  {
    var kids := nodes[s.root].children;
    var found := Scan(nodes, kids, part, accepts, Found([], None));
    ScanFinds(nodes, kids, part, accepts, Found([], None));
    var next := s.(root := if found.last.Some? then found.last.value else s.root);
    if |found.matches| == 1 then (Reached(nodes, found.matches[0], next.(status := PartialMatch)), true)
    else if found.matches == [] then (next.(status := NoMatch), false)
    else (Ambiguous(nodes, found.matches, part, next), false)
  }

  /** The loop of cli_get_custom_command over the words of a line. */
  function Words<C>(nodes: seq<Node<C>>, line: seq<string>, accepts: Accepts, s: State): State
    requires Closed(nodes) && s.root < |nodes|
    decreases |line|
  {
    if line == [] then s
    else if line[0] == "" then Words(nodes, line[1..], accepts, s)
    else
      var (next, more) := Word(nodes, line[0], accepts, s);
      if more then Words(nodes, line[1..], accepts, next) else next
  }

  const BEGIN: State := State(NoMatch, None, 0)

  function Matched<C>(nodes: seq<Node<C>>, line: seq<string>, accepts: Accepts): State
    requires Closed(nodes) && 0 < |nodes|
  {
    Words(nodes, line, accepts, BEGIN)
  }

  // ----- The search itself -------------------------------------------------

  /** cmd_find_matches_worker */
  method FindMatches<C(!new)>(tree: CommandTree<C>, root: nat, part: string, accepts: Accepts)
      returns (matches: seq<nat>, next: nat)
    requires tree.Valid() && root < |tree.nodes|
    ensures Closed(tree.nodes)
    ensures var found := Scan(tree.nodes, tree.nodes[root].children, part, accepts, Found([], None));
            matches == found.matches && next == if found.last.Some? then found.last.value else root
  {
    LinkedIsClosed(tree.nodes, tree.paths);
    var nodes := tree.nodes;
    var children: seq<nat> := nodes[root].children;
    assert InRange(children, |nodes|);
    var last: Option<nat> := None;
    matches := [];
    var i := 0;
    while i < |children|
      invariant i <= |children|
      invariant Scan(nodes, children[i..], part, accepts, Found(matches, last)) ==
                Scan(nodes, children, part, accepts, Found([], None))
    {
      assert children[i..][0] == children[i] && children[i..][1..] == children[i + 1..];
      var c := children[i];
      var visit := VisitOf(nodes[c], part, accepts);
      if visit == Decide {
        matches := [];
      }
      if visit != Skip {
        matches := matches + [c];
        if nodes[c].kind != LineKind {
          last := Some(c);
        }
      }
      if visit == Decide {
        break;
      }
      i := i + 1;
    }
    next := if last.Some? then last.value else root;
  }

  /** The walk over the children of a matched node for the final node. */
  method FindFinal<C>(nodes: seq<Node<C>>, node: nat) returns (final: Option<nat>)
    requires Closed(nodes) && node < |nodes|
    ensures final == FinalOf(nodes, nodes[node].children)
  {
    var children := nodes[node].children;
    final := None;
    var i := 0;
    while i < |children|
      invariant i <= |children|
      invariant FinalOf(nodes, children) ==
                if FinalOf(nodes, children[i..]).Some? then FinalOf(nodes, children[i..]) else final
    {
      assert children[i..][1..] == children[i + 1..];
      if nodes[children[i]].kind == Term {
        final := Some(children[i]);
      }
      i := i + 1;
    }
  }

  /** cli_get_custom_command on the words of a line. */
  method GetCustomCommand<C(!new)>(tree: CommandTree<C>, line: seq<string>, accepts: Accepts)
      returns (status: MatchStatus, final: Option<nat>)
    requires tree.Valid()
    ensures Closed(tree.nodes)
    ensures status == Matched(tree.nodes, line, accepts).status
    ensures final == Matched(tree.nodes, line, accepts).final
  {
    LinkedIsClosed(tree.nodes, tree.paths);
    var nodes := tree.nodes;
    status, final := NoMatch, None;
    var root: nat := 0;
    var i := 0;
    while i < |line|
      invariant i <= |line| && root < |nodes|
      invariant Words(nodes, line[i..], accepts, State(status, final, root)) == Matched(nodes, line, accepts)
    {
      assert line[i..][0] == line[i] && line[i..][1..] == line[i + 1..];
      if line[i] != "" {
        ScanFinds(nodes, nodes[root].children, line[i], accepts, Found([], None));
        var matches: seq<nat>, next := FindMatches(tree, root, line[i], accepts);
        ghost var before := State(status, final, next);
        root := next;
        if |matches| == 1 {
          status := PartialMatch;
          var term := FindFinal(nodes, matches[0]);
          if term.Some? {
            status, final := FullMatch, term;
          }
        } else if matches == [] {
          status := NoMatch;
          return;
        } else {
          var exact := false;
          ghost var all := matches;
          while matches != [] && !exact
            invariant InRange(matches, |nodes|)
            invariant !exact ==> Ambiguous(nodes, matches, line[i], State(status, final, root)) == Ambiguous(nodes, all, line[i], before)
            invariant exact ==> State(status, final, root) == Ambiguous(nodes, all, line[i], before)
            decreases |matches|
          {
            var m := matches[0];
            if nodes[m].kind == CmdPart && nodes[m].name == line[i] {
              var term := FindFinal(nodes, m);
              if term.Some? {
                status, final, exact := FullMatch, term, true;
              }
            }
            matches := matches[1..];
          }
          if !exact {
            status := PartialMatch;
          }
          return;
        }
      }
      i := i + 1;
    }
  }
}
