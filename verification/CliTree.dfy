/** cli.c, as it is built: tree nodes with lists of children, appended while a cursor
    walks down from the root. Nodes are named by their index; node 0 is the root. */
module CliTree {
  import opened Prelude
  import opened CliTrie

  datatype Node<+C> = Node(name: string, kind: Kind, command: Option<C>, children: seq<nat>)

  /** Node i is what the map has at its path. */
  ghost predicate Labelled<C>(nodes: seq<Node<C>>, paths: seq<Path>, trie: Trie<C>, i: nat)
    requires i < |nodes| == |paths|
  {
    && nodes[i].command.Some?
    && paths[i] != [] && nodes[i].name == paths[i][|paths[i]| - 1]
    && paths[i] in trie && trie[paths[i]] == Entry(nodes[i].kind, nodes[i].command.value)
    && (nodes[i].kind == Term ==> nodes[i].name == TERM_NAME)
  }

  /** The nodes and the map name the same paths, each once. */
  ghost predicate Named<C(!new)>(nodes: seq<Node<C>>, paths: seq<Path>, trie: Trie<C>) {
    && |paths| == |nodes| > 0 && paths[0] == []
    && (forall i | 0 < i < |nodes| :: Labelled(nodes, paths, trie, i))
    && (forall i, j | 0 <= i < j < |nodes| :: paths[i] != paths[j])
    && (forall p | p in trie :: exists i :: 0 < i < |nodes| && paths[i] == p)
  }

  /** Node c is named by one step down from node i. */
  ghost predicate Below<C>(nodes: seq<Node<C>>, paths: seq<Path>, i: nat, c: nat)
    requires i < |nodes| == |paths|
  {
    0 < c < |nodes| && paths[c] == paths[i] + [nodes[c].name]
  }

  /** The children lists hold the nodes one step down, and each once. */
  ghost predicate Linked<C>(nodes: seq<Node<C>>, paths: seq<Path>)
    requires |nodes| == |paths|
  {
    forall i | 0 <= i < |nodes| ::
      && (forall c | c in nodes[i].children :: Below(nodes, paths, i, c))
      && (forall c: nat | Below(nodes, paths, i, c) :: c in nodes[i].children)
      && Once(nodes[i].children)
  }

  ghost predicate Once(children: seq<nat>) {
    forall j, k | 0 <= j < k < |children| :: children[j] != children[k]
  }

  function WithChild<C>(nodes: seq<Node<C>>, root: nat, child: Node<C>): seq<Node<C>>
    requires root < |nodes|
  {
    nodes[root := nodes[root].(children := nodes[root].children + [|nodes|])] + [child]
  }

  lemma AppendKeepsNamed<C(!new)>(nodes: seq<Node<C>>, paths: seq<Path>, trie: Trie<C>, root: nat,
                                  name: string, kind: Kind, cmd: C)
    requires Named(nodes, paths, trie) && root < |nodes|
    requires paths[root] + [name] !in trie && (kind == Term ==> name == TERM_NAME)
    ensures var p := paths[root] + [name];
            Named(WithChild(nodes, root, Node(name, kind, Some(cmd), [])), paths + [p], trie[p := Entry(kind, cmd)])
  {
    var p := paths[root] + [name];
    var nodes', paths', trie' := WithChild(nodes, root, Node(name, kind, Some(cmd), [])), paths + [p], trie[p := Entry(kind, cmd)];
    forall i | 0 < i < |nodes'| ensures Labelled(nodes', paths', trie', i) {
      assert i < |nodes| ==> Labelled(nodes, paths, trie, i);
    }
    forall i, j | 0 <= i < j < |nodes'| ensures paths'[i] != paths'[j] {
      assert 0 < i < |nodes| ==> Labelled(nodes, paths, trie, i);
    }
    forall q | q in trie' ensures exists i :: 0 < i < |nodes'| && paths'[i] == q {
      if q == p {
        assert paths'[|nodes|] == q;
      } else {
        var i :| 0 < i < |nodes| && paths[i] == q;
        assert paths'[i] == q;
      }
    }
  }

  lemma AppendKeepsLinked<C(!new)>(nodes: seq<Node<C>>, paths: seq<Path>, trie: Trie<C>, root: nat, child: Node<C>)
    requires Named(nodes, paths, trie) && Linked(nodes, paths) && root < |nodes| && PrefixClosed(trie)
    requires paths[root] + [child.name] !in trie && child.children == []
    ensures Linked(WithChild(nodes, root, child), paths + [paths[root] + [child.name]])
  {
    var p := paths[root] + [child.name];
    var nodes', paths' := WithChild(nodes, root, child), paths + [p];
    var n := |nodes|;
    forall i, c: nat | 0 <= i < |nodes'|
      ensures c in nodes'[i].children <==> Below(nodes', paths', i, c)
    {
      if i < n && c < n {
        assert Below(nodes', paths', i, c) <==> Below(nodes, paths, i, c);
      } else if i < n && c == n {
        SameParent(paths[i], paths[root], child.name);
        assert i != root ==> !Below(nodes, paths, i, n);
      } else if i == n && 0 < c < n {
        assert Labelled(nodes, paths, trie, c);
        assert (p + [nodes[c].name])[..|p|] == p;
        assert paths[c] != p + [nodes[c].name];
      } else if i == n && c == n {
        assert |p| != |p + [child.name]|;
      }
    }
    forall i | 0 <= i < |nodes'| ensures Once(nodes'[i].children) {
      if i < n {
        assert Once(nodes[i].children);
      }
      assert !Below(nodes, paths, root, n);
    }
  }

  lemma SameParent(a: Path, b: Path, name: string)
    ensures a + [name] == b + [name] ==> a == b
  {
    assert (a + [name])[..|a|] == a && (b + [name])[..|b|] == b;
    assert |a + [name]| == |a| + 1 && |b + [name]| == |b| + 1;
  }

  class CommandTree<C(!new)> {
    var nodes: seq<Node<C>>
    ghost var paths: seq<Path>
    ghost var trie: Trie<C>

    ghost predicate Valid()
      reads this
    {
      && 0 < |nodes| == |paths| && paths[0] == []
      && Named(nodes, paths, trie) && Linked(nodes, paths) && PrefixClosed(trie)
    }

    constructor ()
      ensures Valid() && trie == map[]
    {
      nodes := [Node("", CmdPart, None, [])];
      paths := [[]];
      trie := map[];
    }

    /** cmd_find_node */
    method FindNode(root: nat, name: string) returns (found: Option<nat>)
      requires Valid() && root < |nodes|
      ensures found.Some? <==> paths[root] + [name] in trie
      ensures found.Some? ==> 0 < found.value < |nodes| && paths[found.value] == paths[root] + [name]
    {
      hide PrefixClosed;
      var children := nodes[root].children;
      var i := 0;
      while i < |children|
        invariant i <= |children|
        invariant forall k | 0 <= k < i :: 0 < children[k] < |nodes| && nodes[children[k]].name != name
      {
        assert Below(nodes, paths, root, children[i]);
        assert Labelled(nodes, paths, trie, children[i]);
        if nodes[children[i]].name == name {
          return Some(children[i]);
        }
        i := i + 1;
      }
      AbsentChild(nodes, paths, trie, root, name);
      found := None;
    }

    /** Appends a new node to the children of `root`. */
    method Append(root: nat, name: string, kind: Kind, cmd: C) returns (child: nat)
      requires Valid() && root < |nodes|
      requires paths[root] + [name] !in trie
      requires kind == Term ==> name == TERM_NAME
      modifies this
      ensures Valid() && child == old(|nodes|) < |nodes|
      ensures paths == old(paths) + [old(paths)[root] + [name]]
      ensures trie == old(trie)[old(paths)[root] + [name] := Entry(kind, cmd)]
    {
      hide Named, Linked, PrefixClosed;
      ghost var p := paths[root] + [name];
      ghost var node := Node(name, kind, Some(cmd), []);
      AppendKeepsNamed(nodes, paths, trie, root, name, kind, cmd);
      AppendKeepsLinked(nodes, paths, trie, root, node);
      AppendKeepsClosed(nodes, paths, trie, root, name, Entry(kind, cmd));
      child := |nodes|;
      nodes := WithChild(nodes, root, Node(name, kind, Some(cmd), []));
      paths := paths + [p];
      trie := trie[p := Entry(kind, cmd)];
    }

    /** Goes down to the child `name`, which is appended when it is not there, with a
        final node below it when the command ends there. */
    method Descend(root: nat, name: string, last: bool, cmd: C) returns (child: nat)
      requires Valid() && root < |nodes|
      modifies this
      ensures Valid() && 0 < child < |nodes|
      ensures trie == Descended(old(trie), old(paths)[root], name, last, cmd)
      ensures old(paths) <= paths && paths[child] == old(paths)[root] + [name]
    {
      hide Named, Linked, PrefixClosed;
      ghost var t, base := trie, paths[root];
      var node := FindNode(root, name);
      if node.Some? {
        child := node.value;
      } else {
        child := Append(root, name, KindOf(name), cmd);
        if last {
          FreshBelow(t, base, name);
          var final := Append(child, TERM_NAME, Term, cmd);
        }
      }
    }

    /** The loop of cmd_create_tree over the parts of a command, from part `from` on below
        the node `root`; cmd_process_variadic_argument ends with the same loop. */
    method Install(cmd: C, parts: seq<string>, from: nat, root: nat)
      requires Valid() && root < |nodes| && from <= |parts|
      modifies this
      ensures Valid() && old(paths) <= paths
      ensures trie == Grafted(old(trie), old(paths)[root], Choices(parts[from..]), cmd)
      decreases |parts| - from, 1
    {
      hide Named, Linked, PrefixClosed, Descended, Grafted, GraftedEach, Choices;
      ghost var whole := Grafted(trie, paths[root], Choices(parts[from..]), cmd);
      var i: nat, node: nat := from, root;
      while i < |parts|
        invariant from <= i <= |parts|
        invariant Valid() && node < |nodes| && old(paths) <= paths
        invariant Grafted(trie, paths[node], Choices(parts[i..]), cmd) == whole
      {
        GraftedPart(trie, paths[node], parts, i, cmd);
        if '|' in parts[i] {
          ProcessVariadicArgument(cmd, parts, i, node);
          return;
        }
        node := Descend(node, parts[i], i == |parts| - 1, cmd);
        i := i + 1;
      }
      GraftedNothing(trie, paths[node], parts, cmd);
    }

    /** cmd_process_variadic_argument: every alternative in turn, from the same root. */
    method ProcessVariadicArgument(cmd: C, parts: seq<string>, argIndex: nat, root: nat)
      requires Valid() && root < |nodes| && argIndex < |parts| && '|' in parts[argIndex]
      modifies this
      ensures Valid() && old(paths) <= paths
      ensures trie == GraftedEach(old(trie), old(paths)[root], Tokens(parts[argIndex]), Choices(parts[argIndex + 1..]), cmd)
      decreases |parts| - argIndex, 0
    {
      hide Named, Linked, PrefixClosed, Descended;
      var tokens := Tokens(parts[argIndex]);
      ghost var base, rest := paths[root], Choices(parts[argIndex + 1..]);
      var k := 0;
      while k < |tokens|
        invariant k <= |tokens|
        invariant Valid() && root < |nodes| && old(paths) <= paths
        invariant GraftedEach(trie, base, tokens[k..], rest, cmd) == GraftedEach(old(trie), base, tokens, rest, cmd)
      {
        assert tokens[k..][0] == tokens[k] && tokens[k..][1..] == tokens[k + 1..];
        var node := Descend(root, tokens[k], argIndex == |parts| - 1, cmd);
        assert rest == [] <==> argIndex == |parts| - 1;
        Install(cmd, parts, argIndex + 1, node);
        k := k + 1;
      }
    }

    /** cmd_create_tree */
    method CreateTree(cmd: Command<C>)
      requires Valid()
      modifies this
      ensures Valid() && trie == Installed(old(trie), cmd)
    {
      Install(cmd.id, cmd.parts, 0, 0);
      assert cmd.parts[0..] == cmd.parts;
    }

    /** cli_append_to_node: the commands of a list are installed one by one, into a tree
        that already holds the commands `before`. */
    method AppendToNode(cmds: seq<Command<C>>, ghost before: seq<Command<C>>)
      requires Valid() && trie == InstalledAll(before)
      modifies this
      ensures Valid() && trie == InstalledAll(before + cmds)
    {
      hide Named, Linked, PrefixClosed, Installed, InstalledAll;
      assert before + cmds[..0] == before;
      var i := 0;
      while i < |cmds|
        invariant i <= |cmds|
        invariant Valid() && trie == InstalledAll(before + cmds[..i])
      {
        CreateTree(cmds[i]);
        InstalledNext(before + cmds[..i], cmds[i]);
        assert before + cmds[..i + 1] == before + cmds[..i] + [cmds[i]];
        i := i + 1;
      }
      assert cmds[..i] == cmds;
    }

    /** cli_install_custom_node: the commands of the node and, when it has a parent, the
        command that leaves it. */
    method InstallNode(cmds: seq<Command<C>>, hasParent: bool, endCmd: Command<C>)
      requires Valid() && trie == map[]
      modifies this
      ensures Valid() && trie == InstalledAll(cmds + if hasParent then [endCmd] else [])
    {
      hide Named, Linked, PrefixClosed, Installed;
      AppendToNode(cmds, []);
      assert [] + cmds == cmds && cmds + [] == cmds;
      if hasParent {
        CreateTree(endCmd);
        InstalledNext(cmds, endCmd);
      }
    }
  }

  lemma InstalledNext<C>(cmds: seq<Command<C>>, c: Command<C>)
    ensures InstalledAll(cmds + [c]) == Installed(InstalledAll(cmds), c)
  {
    assert (cmds + [c])[..|cmds|] == cmds;
  }

  lemma GraftedNothing<C>(t: Trie<C>, base: Path, parts: seq<string>, cmd: C)
    ensures Grafted(t, base, Choices(parts[|parts|..]), cmd) == t
  {
  }

  lemma AbsentChild<C(!new)>(nodes: seq<Node<C>>, paths: seq<Path>, trie: Trie<C>, root: nat, name: string)
    requires Named(nodes, paths, trie) && Linked(nodes, paths) && root < |nodes|
    requires forall c | c in nodes[root].children :: c < |nodes| && nodes[c].name != name
    ensures paths[root] + [name] !in trie
  {
    if paths[root] + [name] in trie {
      var c :| 0 < c < |nodes| && paths[c] == paths[root] + [name];
      assert Labelled(nodes, paths, trie, c);
      assert Below(nodes, paths, root, c);
      assert false;
    }
  }

  lemma AppendKeepsClosed<C(!new)>(nodes: seq<Node<C>>, paths: seq<Path>, trie: Trie<C>, root: nat, name: string, e: Entry<C>)
    requires Named(nodes, paths, trie) && PrefixClosed(trie) && root < |nodes|
    ensures PrefixClosed(trie[paths[root] + [name] := e])
  {
    var base := paths[root];
    var p := base + [name];
    assert 0 < root ==> Labelled(nodes, paths, trie, root);
    forall q, n: nat | q in trie[p := e] && 0 < n <= |q| ensures q[..n] in trie[p := e] {
      if q == p {
        assert n <= |base| ==> p[..n] == base[..n];
        assert n == |p| ==> p[..n] == p;
      }
    }
  }

  /** Below a node that was not there nothing was there. */
  lemma FreshBelow<C(!new)>(t: Trie<C>, base: Path, name: string)
    requires PrefixClosed(t) && base + [name] !in t
    ensures base + [name] + [TERM_NAME] !in t
  {
    var p := base + [name];
    assert (p + [TERM_NAME])[..|p|] == p;
  }

  lemma GraftedOne<C>(t: Trie<C>, base: Path, name: string, rest: seq<seq<string>>, cmd: C)
    ensures GraftedEach(t, base, [name], rest, cmd) ==
            Grafted(Descended(t, base, name, rest == [], cmd), base + [name], rest, cmd)
  {
    hide Grafted, Descended;
    assert [name][1..] == [];
  }

  /** One part of a command as the specification takes it. */
  lemma GraftedPart<C(!new)>(t: Trie<C>, base: Path, parts: seq<string>, i: nat, cmd: C)
    requires i < |parts|
    ensures Grafted(t, base, Choices(parts[i..]), cmd) ==
            var rest := Choices(parts[i + 1..]);
            if '|' in parts[i] then GraftedEach(t, base, Tokens(parts[i]), rest, cmd)
            else Grafted(Descended(t, base, parts[i], i == |parts| - 1, cmd), base + [parts[i]], rest, cmd)
  {
    hide Descended;
    assert parts[i..][0] == parts[i] && parts[i..][1..] == parts[i + 1..];
    assert Choices(parts[i..])[1..] == Choices(parts[i + 1..]);
    var rest := Choices(parts[i + 1..]);
    assert Grafted(t, base, Choices(parts[i..]), cmd) == GraftedEach(t, base, Alternatives(parts[i]), rest, cmd);
    if '|' !in parts[i] {
      GraftedOne(t, base, parts[i], rest, cmd);
    }
  }
}
