/** cli.c, as it should be understood: the command tree as a map from paths to what
    stands there, and what installing a command adds to it. */
module CliTrie {
  import opened Prelude

  /** The names on the way from the root to a node. */
  type Path = seq<string>

  /** NodeType */
  datatype Kind = CmdPart | WordKind | LineKind | IntKind | CharKind | ListKind | IntListKind | Term

  const TERM_NAME: string := "<cr>"

  /** What a node carries besides its name: its type and the command that made it. */
  datatype Entry<+C> = Entry(kind: Kind, command: C)

  type Trie<C> = map<Path, Entry<C>>

  // ----- Names -------------------------------------------------------------

  predicate IsDigit(c: char) { '0' <= c <= '9' }

  function SkipWhile(s: string, p: char -> bool): string {
    if s != [] && p(s[0]) then SkipWhile(s[1..], p) else s
  }

  /** The rest of a string behind what "%d" of sscanf reads, if it reads a number. */
  function SkipNumber(s: string): Option<string> {
    var t := SkipWhile(s, IsSpace);
    var u := if t != [] && (t[0] == '-' || t[0] == '+') then t[1..] else t;
    if u != [] && IsDigit(u[0]) then Some(SkipWhile(u, IsDigit)) else None
  }

  /** sscanf(name, "LIST[%d-%d]") reads both numbers. */
  predicate HasListRange(name: string) {
    "LIST[" <= name &&
    match SkipNumber(name[5..])
    case None => false
    case Some(rest) => rest != [] && rest[0] == '-' && SkipNumber(rest[1..]).Some?
  }

  /** cmd_create_node_data: the type of a node is read off its name. */
  function KindOf(name: string): (k: Kind)
    ensures k != Term
  {
    if name == "WORD" then WordKind
    else if name == "LINE" then LineKind
    else if "INT" <= name then IntKind
    else if name == "CHAR" then CharKind
    else if "LIST" <= name then (if HasListRange(name) then IntListKind else ListKind)
    else CmdPart
  }

  /** strtok_r(s, "|"): empty tokens are skipped. */
  function Tokens(s: string): (ts: seq<string>)
    ensures forall t | t in ts :: t != "" && '|' !in t
    decreases |s|
  {
    var n := TokenLength(s);
    var rest := if n < |s| then Tokens(s[n + 1..]) else [];
    if n == 0 then rest else [s[..n]] + rest
  }

  function TokenLength(s: string): (n: nat)
    ensures n <= |s| && '|' !in s[..n] && (n < |s| ==> s[n] == '|')
  {
    if s == [] || s[0] == '|' then 0
    else
      assert s[..1 + TokenLength(s[1..])] == [s[0]] + s[1..][..TokenLength(s[1..])];
      1 + TokenLength(s[1..])
  }

  /** The names one part of a command stands for. */
  function Alternatives(part: string): seq<string> {
    if '|' in part then Tokens(part) else [part]
  }

  // ----- Installing, step by step ------------------------------------------

  /** Going from the node at `base` to its child: the child is appended when there is
      none of that name, with a final node below it when the command ends there. */
  function Descended<C>(t: Trie<C>, base: Path, name: string, last: bool, cmd: C): Trie<C> {
    var p := base + [name];
    if p in t then t
    else if last then t[p := Entry(KindOf(name), cmd)][p + [TERM_NAME] := Entry(Term, cmd)]
    else t[p := Entry(KindOf(name), cmd)]
  }

  /** The rest of a command, given by the alternatives of its parts, installed below
      the node at `base`. */
  function Grafted<C>(t: Trie<C>, base: Path, choices: seq<seq<string>>, cmd: C): Trie<C>
    decreases |choices|, 1, 0
  {
    if choices == [] then t else GraftedEach(t, base, choices[0], choices[1..], cmd)
  }

  /** One alternative after the other, each with the whole rest of the command. */
  function GraftedEach<C>(t: Trie<C>, base: Path, names: seq<string>, rest: seq<seq<string>>, cmd: C): Trie<C>
    decreases |rest| + 1, 0, |names|
  {
    if names == [] then t
    else
      var down := Descended(t, base, names[0], rest == [], cmd);
      GraftedEach(Grafted(down, base + [names[0]], rest, cmd), base, names[1..], rest, cmd)
  }

  // ----- What installing amounts to ----------------------------------------

  /** `q` chooses one alternative for each of the first |q| parts, at least one. */
  predicate Spells(choices: seq<seq<string>>, q: Path) {
    0 < |q| <= |choices| && forall i | 0 <= i < |q| :: q[i] in choices[i]
  }

  /** `q` is an expansion of the whole command. */
  predicate Expands(choices: seq<seq<string>>, q: Path) {
    |q| == |choices| && Spells(choices, q)
  }

  ghost predicate PrefixClosed<C(!new)>(t: Trie<C>) {
    forall p, n: nat | p in t && 0 < n <= |p| :: p[..n] in t
  }

  /** `q` is an expansion with the name of the final node behind it. */
  predicate Ends(choices: seq<seq<string>>, q: Path) {
    |q| == |choices| + 1 && q[|choices|] == TERM_NAME && Expands(choices, q[..|choices|])
  }

  /** What installing puts at a free path: the nodes of the choices, and a final node below
      every expansion that was no node before. */
  function Addition<C>(t: Trie<C>, base: Path, choices: seq<seq<string>>, cmd: C, q: Path): Option<Entry<C>> {
    if Spells(choices, q) then Some(Entry(KindOf(q[|q| - 1]), cmd))
    else if Ends(choices, q) && base + q[..|choices|] !in t then Some(Entry(Term, cmd))
    else None
  }

  function At<C>(t: Trie<C>, p: Path): Option<Entry<C>> {
    if p in t then Some(t[p]) else None
  }

  /** `u` is `t` with a command's additions below `base`. */
  ghost predicate IsGraft<C(!new)>(t: Trie<C>, base: Path, choices: seq<seq<string>>, cmd: C, u: Trie<C>) {
    && (forall p | p in t :: p in u && u[p] == t[p])
    && (forall p | p !in t && !(base <= p) :: p !in u)
    && (forall q: Path | base + q !in t :: At(u, base + q) == Addition(t, base, choices, cmd, q))
  }

  lemma SpellsFirst(names: seq<string>, rest: seq<seq<string>>, q: Path)
    ensures Spells([names] + rest, q) <==> q != [] && q[0] in names && (|q| == 1 || Spells(rest, q[1..]))
  {
    var choices := [names] + rest;
    if Spells(choices, q) {
      assert choices[0] == names;
      forall i | 0 <= i < |q[1..]| ensures q[1..][i] in rest[i] {
        assert q[i + 1] in choices[i + 1];
      }
    }
    if q != [] && q[0] in names && (|q| == 1 || Spells(rest, q[1..])) {
      forall i | 0 <= i < |q| ensures q[i] in choices[i] {
        if i > 0 {
          assert q[1..][i - 1] in rest[i - 1];
        }
      }
    }
  }

  lemma EndsFirst(names: seq<string>, rest: seq<seq<string>>, q: Path)
    ensures Ends([names] + rest, q) <==>
            |q| == |rest| + 2 && q[0] in names && if rest == [] then q[1] == TERM_NAME else Ends(rest, q[1..])
  {
    var n := |rest| + 1;
    if |q| == n + 1 {
      SpellsFirst(names, rest, q[..n]);
      assert q[..n][1..] == q[1..][..|rest|];
    }
  }

  /** What going down one name adds: the child, and its final node when it was not there. */
  ghost predicate IsDescent<C(!new)>(t: Trie<C>, base: Path, name: string, last: bool, cmd: C, d: Trie<C>) {
    && base + [name] in d
    && (forall p | p in t :: p in d && d[p] == t[p])
    && (forall p | p !in t && p != base + [name] && p != base + [name, TERM_NAME] :: p !in d)
    && (base + [name] !in t ==> d[base + [name]] == Entry(KindOf(name), cmd))
    && (base + [name, TERM_NAME] !in t ==>
          At(d, base + [name, TERM_NAME]) == if last && base + [name] !in t then Some(Entry(Term, cmd)) else None)
  }

  lemma DescendedIs<C(!new)>(t: Trie<C>, base: Path, name: string, last: bool, cmd: C)
    requires PrefixClosed(t) && (base == [] || base in t)
    ensures PrefixClosed(Descended(t, base, name, last, cmd))
    ensures IsDescent(t, base, name, last, cmd, Descended(t, base, name, last, cmd))
  {
    var d := Descended(t, base, name, last, cmd);
    var p0 := base + [name];
    assert p0 + [TERM_NAME] == base + [name, TERM_NAME];
    if p0 !in t {
      assert (p0 + [TERM_NAME])[..|p0|] == p0;
      assert p0 + [TERM_NAME] !in t;
      forall p, n: nat | p in d && 0 < n <= |p| ensures p[..n] in d {
        if p !in t && n < |p| {
          assert n <= |base| ==> p[..n] == base[..n];
          assert n == |p0| ==> p[..n] == p0;
        } else if n == |p| {
          assert p[..n] == p;
        }
      }
    }
  }

  /** A path under another name is untouched by going down `a`. */
  lemma JoinOther<C(!new)>(t: Trie<C>, base: Path, names: seq<string>, rest: seq<seq<string>>, cmd: C,
                           d: Trie<C>, g: Trie<C>, q: Path)
    requires names != [] && q != [] && q[0] != names[0] && base + q !in t
    requires IsDescent(t, base, names[0], rest == [], cmd, d) && IsGraft(d, base + [names[0]], rest, cmd, g)
    ensures base + q !in g
    ensures Addition(g, base, [names[1..]] + rest, cmd, q) == Addition(t, base, [names] + rest, cmd, q)
  {
    OtherNameFree(base, names[0], q);
    SpellsFirst(names, rest, q);
    SpellsFirst(names[1..], rest, q);
    EndsFirst(names, rest, q);
    EndsFirst(names[1..], rest, q);
    if |q| == |rest| + 2 {
      var e := q[..|rest| + 1];
      OtherNameFree(base, names[0], e);
      assert base + e in t ==> base + e in d && base + e in g;
    }
  }

  lemma OtherNameFree(base: Path, a: string, q: Path)
    requires q != [] && q[0] != a
    ensures base + q != base + [a] && base + q != base + [a, TERM_NAME] && !(base + [a] <= base + q)
  {
    assert (base + q)[|base|] == q[0];
    assert (base + [a])[|base|] == a && (base + [a, TERM_NAME])[|base|] == a;
  }

  /** A path under `a`: what the rest of the command adds below it is all that is added. */
  lemma JoinSame<C(!new)>(t: Trie<C>, base: Path, names: seq<string>, rest: seq<seq<string>>, cmd: C,
                          d: Trie<C>, g: Trie<C>, q: Path)
    requires names != [] && q != [] && q[0] == names[0] && base + q !in t
    requires IsDescent(t, base, names[0], rest == [], cmd, d) && IsGraft(d, base + [names[0]], rest, cmd, g)
    ensures At(g, base + q) == Addition(t, base, [names] + rest, cmd, q)
  {
    hide IsDescent, Addition;
    if base + q in d {
      JoinAtDescent(t, base, names, rest, cmd, d, q);
    } else {
      var a, r := names[0], q[1..];
      assert base + q == base + [a] + r;
      JoinBelow(t, base, names, rest, cmd, d, q);
    }
  }

  /** The paths that going down itself makes. */
  lemma JoinAtDescent<C(!new)>(t: Trie<C>, base: Path, names: seq<string>, rest: seq<seq<string>>, cmd: C,
                               d: Trie<C>, q: Path)
    requires names != [] && q != [] && q[0] == names[0] && base + q !in t && base + q in d
    requires IsDescent(t, base, names[0], rest == [], cmd, d)
    ensures At(d, base + q) == Addition(t, base, [names] + rest, cmd, q)
  {
    var a := names[0];
    assert (base + q)[|base|..] == q;
    SpellsFirst(names, rest, q);
    EndsFirst(names, rest, q);
    if base + q == base + [a] {
      assert (base + [a])[|base|..] == [a];
    } else {
      assert base + q == base + [a, TERM_NAME];
      assert (base + [a, TERM_NAME])[|base|..] == [a, TERM_NAME];
      assert q[..1] == [a];
    }
  }

  /** Further down the rest of the command adds what the whole command adds. */
  lemma JoinBelow<C(!new)>(t: Trie<C>, base: Path, names: seq<string>, rest: seq<seq<string>>, cmd: C,
                           d: Trie<C>, q: Path)
    requires names != [] && q != [] && q[0] == names[0] && base + q !in t && base + q !in d
    requires IsDescent(t, base, names[0], rest == [], cmd, d)
    ensures Addition(d, base + [names[0]], rest, cmd, q[1..]) == Addition(t, base, [names] + rest, cmd, q)
  {
    hide Spells, Ends;
    var a, r := names[0], q[1..];
    assert q == [a] + r;
    SpellsFirst(names, rest, q);
    EndsFirst(names, rest, q);
    assert r == [] ==> base + q == base + [a];
    SpellsNothing(rest, r);
    EndsLength(rest, r);
    if rest == [] && |q| == 2 && q[1] == TERM_NAME {
      assert q == [a, TERM_NAME] && q[..1] == [a];
    }
    if rest != [] && |r| == |rest| + 1 {
      var e := r[..|rest|];
      assert base + q[..|rest| + 1] == base + [a] + e;
      LongerThanDescent(base, a, q[..|rest| + 1], false);
    }
  }

  lemma SpellsNothing(choices: seq<seq<string>>, q: Path)
    ensures q == [] || choices == [] ==> !Spells(choices, q) && !Ends(choices, q)
  {
  }

  lemma EndsLength(choices: seq<seq<string>>, q: Path)
    ensures Ends(choices, q) ==> choices != [] && |q| == |choices| + 1
  {
  }

  lemma LongerThanDescent(base: Path, a: string, q: Path, last: bool)
    requires 1 < |q|
    ensures base + q != base + [a]
    ensures base + q == base + [a, TERM_NAME] ==> q == [a, TERM_NAME]
  {
    assert |base + q| != |base + [a]|;
    if base + q == base + [a, TERM_NAME] {
      assert (base + q)[|base|..] == q && (base + [a, TERM_NAME])[|base|..] == [a, TERM_NAME];
    }
  }

  /** Under `a` every choice of later names is a node already. */
  lemma ChosenIsThere<C(!new)>(t: Trie<C>, base: Path, names: seq<string>, rest: seq<seq<string>>, cmd: C,
                               d: Trie<C>, g: Trie<C>, q: Path)
    requires names != [] && q != [] && q[0] == names[0] && Spells([names[1..]] + rest, q)
    requires IsDescent(t, base, names[0], rest == [], cmd, d) && IsGraft(d, base + [names[0]], rest, cmd, g)
    ensures base + q in g
  {
    hide Spells, Ends;
    var a, r := names[0], q[1..];
    SpellsFirst(names[1..], rest, q);
    assert base + q == base + [a] + r;
    if r == [] {
      assert base + q == base + [a];
    }
  }

  /** When the rest added nothing at a path under `a`, later alternatives add nothing either. */
  lemma JoinSameAgain<C(!new)>(t: Trie<C>, base: Path, names: seq<string>, rest: seq<seq<string>>, cmd: C,
                               d: Trie<C>, g: Trie<C>, q: Path)
    requires names != [] && q != [] && q[0] == names[0] && base + q !in g
    requires IsDescent(t, base, names[0], rest == [], cmd, d) && IsGraft(d, base + [names[0]], rest, cmd, g)
    ensures Addition(g, base, [names[1..]] + rest, cmd, q) == None
  {
    hide IsDescent, IsGraft, Spells;
    var choices := [names[1..]] + rest;
    if Spells(choices, q) {
      ChosenIsThere(t, base, names, rest, cmd, d, g, q);
    } else if Ends(choices, q) {
      ChosenIsThere(t, base, names, rest, cmd, d, g, q[..|choices|]);
    }
  }

  lemma GraftsJoin<C(!new)>(t: Trie<C>, base: Path, names: seq<string>, rest: seq<seq<string>>, cmd: C,
                            d: Trie<C>, g: Trie<C>, u: Trie<C>)
    requires names != [] && (base == [] || base in t)
    requires IsDescent(t, base, names[0], rest == [], cmd, d) && IsGraft(d, base + [names[0]], rest, cmd, g)
    requires IsGraft(g, base, [names[1..]] + rest, cmd, u)
    ensures IsGraft(t, base, [names] + rest, cmd, u)
  {
    hide Addition;
    forall p | p !in t && !(base <= p) ensures p !in u {
      assert p[..] == p;
      assert base <= base + [names[0]] && base <= base + [names[0], TERM_NAME];
      assert base + [names[0]] <= p ==> base <= p;
    }
    forall q: Path | base + q !in t ensures At(u, base + q) == Addition(t, base, [names] + rest, cmd, q) {
      if q == [] {
        RootFree(t, base, names, rest, cmd, g);
        assert base + [] == base;
        assert |base + [names[0]]| > 0 && |base + [names[0], TERM_NAME]| > 0;
        assert [] !in g;
      } else if q[0] == names[0] {
        JoinSame(t, base, names, rest, cmd, d, g, q);
        if base + q !in g {
          JoinSameAgain(t, base, names, rest, cmd, d, g, q);
        }
      } else {
        JoinOther(t, base, names, rest, cmd, d, g, q);
      }
    }
  }

  lemma RootFree<C(!new)>(t: Trie<C>, base: Path, names: seq<string>, rest: seq<seq<string>>, cmd: C, g: Trie<C>)
    ensures Addition(t, base, [names] + rest, cmd, []) == None
    ensures names != [] ==> Addition(g, base, [names[1..]] + rest, cmd, []) == None
  {
  }

  /** The step-by-step installation makes exactly the additions. */
  lemma {:induction false} GraftedIs<C(!new)>(t: Trie<C>, base: Path, choices: seq<seq<string>>, cmd: C)
    requires PrefixClosed(t) && (base == [] || base in t)
    ensures IsGraft(t, base, choices, cmd, Grafted(t, base, choices, cmd))
    ensures PrefixClosed(Grafted(t, base, choices, cmd))
    decreases |choices|, 1, 0
  {
    if choices == [] {
      forall q: Path | base + q !in t ensures Addition(t, base, choices, cmd, q) == None {
        if Ends(choices, q) {
          assert false;
        }
      }
    } else {
      GraftedEachIs(t, base, choices[0], choices[1..], cmd);
      assert [choices[0]] + choices[1..] == choices;
    }
  }

  lemma {:induction false} GraftedEachIs<C(!new)>(t: Trie<C>, base: Path, names: seq<string>, rest: seq<seq<string>>, cmd: C)
    requires PrefixClosed(t) && (base == [] || base in t)
    ensures IsGraft(t, base, [names] + rest, cmd, GraftedEach(t, base, names, rest, cmd))
    ensures PrefixClosed(GraftedEach(t, base, names, rest, cmd))
    decreases |rest| + 1, 0, |names|
  {
    var u := GraftedEach(t, base, names, rest, cmd);
    if names == [] {
      forall q: Path | base + q !in t ensures Addition(t, base, [names] + rest, cmd, q) == None {
        SpellsFirst(names, rest, q);
        EndsFirst(names, rest, q);
      }
    } else {
      hide Grafted, GraftedEach, IsGraft, IsDescent, Descended, PrefixClosed;
      var a := names[0];
      var d := Descended(t, base, a, rest == [], cmd);
      DescendedIs(t, base, a, rest == [], cmd);
      GraftedIs(d, base + [a], rest, cmd);
      var g := Grafted(d, base + [a], rest, cmd);
      GraftContains(t, base, a, rest, cmd, d, g);
      GraftedEachIs(g, base, names[1..], rest, cmd);
      GraftsJoin(t, base, names, rest, cmd, d, g, GraftedEach(g, base, names[1..], rest, cmd));
    }
  }

  lemma GraftContains<C(!new)>(t: Trie<C>, base: Path, a: string, rest: seq<seq<string>>, cmd: C, d: Trie<C>, g: Trie<C>)
    requires base == [] || base in t
    requires IsDescent(t, base, a, rest == [], cmd, d) && IsGraft(d, base + [a], rest, cmd, g)
    ensures base == [] || base in g
  {
  }

  // ----- A list of commands ------------------------------------------------

  /** A command: the parts of its name and what identifies it. */
  datatype Command<+C> = Command(parts: seq<string>, id: C)

  function Choices(parts: seq<string>): (choices: seq<seq<string>>)
    ensures |choices| == |parts|
    ensures forall i | 0 <= i < |parts| :: choices[i] == Alternatives(parts[i])
  {
    if parts == [] then [] else [Alternatives(parts[0])] + Choices(parts[1..])
  }

  /** cmd_create_tree */
  function Installed<C>(t: Trie<C>, c: Command<C>): Trie<C> {
    Grafted(t, [], Choices(c.parts), c.id)
  }

  /** The tree after a list of commands, as cli_install_custom_node builds it. */
  function InstalledAll<C>(cmds: seq<Command<C>>): Trie<C> {
    if cmds == [] then map[] else Installed(InstalledAll(cmds[..|cmds| - 1]), cmds[|cmds| - 1])
  }

  /** Command i is the one whose installation puts a final node at `p`: `p` ends one of its
      expansions, and that expansion was no node when the command was installed. */
  ghost predicate Introduces<C>(cmds: seq<Command<C>>, i: nat, p: Path) {
    i < |cmds| && Ends(Choices(cmds[i].parts), p) && p[..|p| - 1] !in InstalledAll(cmds[..i])
  }

  /** `p` is the beginning of a choice of alternatives of some command. */
  ghost predicate Spelled<C>(cmds: seq<Command<C>>, i: nat, p: Path) {
    i < |cmds| && Spells(Choices(cmds[i].parts), p)
  }

  lemma InstalledIs<C(!new)>(t: Trie<C>, c: Command<C>, p: Path)
    requires PrefixClosed(t)
    ensures PrefixClosed(Installed(t, c))
    ensures At(Installed(t, c), p) == if p in t then Some(t[p]) else Addition(t, [], Choices(c.parts), c.id, p)
  {
    GraftedIs(t, [], Choices(c.parts), c.id);
    assert [] + p == p;
  }

  ghost predicate SomeSpells<C>(cmds: seq<Command<C>>, p: Path) {
    exists i: nat :: Spelled(cmds, i, p)
  }

  ghost predicate SomeIntroduces<C>(cmds: seq<Command<C>>, p: Path) {
    exists i: nat :: Introduces(cmds, i, p)
  }

  lemma SplitLast<C(!new)>(cmds: seq<Command<C>>, p: Path)
    requires cmds != []
    ensures var n := |cmds| - 1;
            && (SomeSpells(cmds, p) <==> SomeSpells(cmds[..n], p) || Spelled(cmds, n, p))
            && (SomeIntroduces(cmds, p) <==> SomeIntroduces(cmds[..n], p) || Introduces(cmds, n, p))
            && (forall i: nat | Introduces(cmds, i, p) && i != n :: Introduces(cmds[..n], i, p) && cmds[..n][i] == cmds[i])
  {
    hide Ends, Spells;
    var n := |cmds| - 1;
    var init := cmds[..n];
    forall i: nat | i < n ensures Spelled(init, i, p) <==> Spelled(cmds, i, p) {
    }
    forall i: nat | i < n ensures Introduces(init, i, p) <==> Introduces(cmds, i, p) {
      assert init[..i] == cmds[..i];
    }
  }

  /** What is at a path of the tree, after any list of commands: a node for every
      beginning of every choice of alternatives, and a final node exactly where some
      command introduced one, carrying that command. */
  lemma {:induction false} TreeContents<C(!new)>(cmds: seq<Command<C>>, p: Path)
    ensures var t := InstalledAll(cmds);
            && PrefixClosed(t)
            && (p in t <==> SomeSpells(cmds, p) || SomeIntroduces(cmds, p))
            && (p in t && t[p].kind == Term <==> SomeIntroduces(cmds, p))
            && (forall i: nat | Introduces(cmds, i, p) :: p in t && t[p].command == cmds[i].id)
    decreases |cmds|
  {
    hide Installed, PrefixClosed, Spelled, Introduces, Addition;
    if cmds == [] {
      NoCommands<C>(p);
    } else {
      var n := |cmds| - 1;
      TreeContents(cmds[..n], p);
      InstalledIs(InstalledAll(cmds[..n]), cmds[n], p);
      LastCommand(cmds, p);
      SplitLast(cmds, p);
    }
  }

  lemma NoCommands<C(!new)>(p: Path)
    ensures PrefixClosed<C>(map[]) && !SomeSpells<C>([], p) && !SomeIntroduces<C>([], p)
    ensures forall i: nat :: !Introduces<C>([], i, p)
  {
  }

  /** The step from all commands but the last to all of them. */
  lemma LastCommand<C(!new)>(cmds: seq<Command<C>>, p: Path)
    requires cmds != []
    requires var t := InstalledAll(cmds[..|cmds| - 1]); PrefixClosed(t)
    ensures var n, t := |cmds| - 1, InstalledAll(cmds[..|cmds| - 1]);
            && (Introduces(cmds, n, p) ==> p !in t)
            && (p !in t ==> (Addition(t, [], Choices(cmds[n].parts), cmds[n].id, p) ==
                             if Spelled(cmds, n, p) then Some(Entry(KindOf(p[|p| - 1]), cmds[n].id))
                             else if Introduces(cmds, n, p) then Some(Entry(Term, cmds[n].id)) else None))
            && !(Introduces(cmds, n, p) && Spelled(cmds, n, p))
  {
    var n := |cmds| - 1;
    if Ends(Choices(cmds[n].parts), p) {
      assert [] + p[..|p| - 1] == p[..|p| - 1];
      assert |p| - 1 > 0;
    }
  }

  /** When every part has an alternative, the beginnings of choices are the nonempty
      prefixes of the expansions. */
  lemma SpellsIsPrefix(choices: seq<seq<string>>, q: Path)
    requires forall i | 0 <= i < |choices| :: choices[i] != []
    ensures Spells(choices, q) <==> q != [] && exists e :: Expands(choices, e) && q <= e
  {
    if Spells(choices, q) {
      var e := q + seq(|choices| - |q|, i requires 0 <= i < |choices| - |q| => choices[|q| + i][0]);
      assert Expands(choices, e);
    }
  }
}
