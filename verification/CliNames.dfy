/** What the parts of a command name mean: alternatives between bars, and the node types
    that names stand for. */
module CliNames {
  import opened Prelude
  import opened CliTrie

  // ----- Alternatives ------------------------------------------------------

  /** A text without a bar is one token, unless it is empty. */
  lemma {:induction false} PlainToken(s: string)
    requires '|' !in s
    ensures Tokens(s) == if s == "" then [] else [s]
  {
    assert forall i | 0 <= i < |s| :: s[i] in s;
    assert s[..TokenLength(s)] == s;
  }

  lemma {:induction false} FirstToken(a: string, b: string)
    ensures '|' !in a ==> TokenLength(a + "|" + b) == |a|
    ensures '|' in a ==> TokenLength(a + "|" + b) == TokenLength(a) < |a|
    decreases |a|
  {
    var s := a + "|" + b;
    if a != "" && a[0] != '|' {
      assert s[1..] == a[1..] + "|" + b;
      assert a == [a[0]] + a[1..];
      FirstToken(a[1..], b);
    }
  }

  /** A bar separates the tokens before it from those behind it, wherever it stands. */
  lemma {:induction false} TokensJoin(a: string, b: string)
    ensures Tokens(a + "|" + b) == Tokens(a) + Tokens(b)
    decreases |a|
  {
    hide TokenLength;
    var s := a + "|" + b;
    FirstToken(a, b);
    var n := TokenLength(s);
    if '|' !in a {
      PlainToken(a);
      assert s[..n] == a && s[n + 1..] == b;
    } else {
      assert s[..n] == a[..n] && s[n + 1..] == a[n + 1..] + "|" + b;
      TokensJoin(a[n + 1..], b);
      TokensFirst(s);
      TokensFirst(a);
      hide Tokens;
      JoinNames(a[..n], Tokens(a[n + 1..]), Tokens(b));
    }
  }

  lemma TokensFirst(s: string)
    requires TokenLength(s) < |s|
    ensures var n := TokenLength(s);
            Tokens(s) == if n == 0 then Tokens(s[n + 1..]) else [s[..n]] + Tokens(s[n + 1..])
  {
    hide TokenLength;
  }

  lemma JoinNames(a: string, b: seq<string>, c: seq<string>)
    ensures [a] + (b + c) == [a] + b + c
  {
  }

  /** Names with bars between them, as they are written in a command. */
  function Barred(names: seq<string>): string
    requires names != []
  {
    if |names| == 1 then names[0] else names[0] + "|" + Barred(names[1..])
  }

  /** What can be an alternative. */
  ghost predicate Names(names: seq<string>) {
    names != [] && forall i | 0 <= i < |names| :: names[i] != "" && '|' !in names[i]
  }

  lemma {:induction false} TokensOfBarred(names: seq<string>)
    requires Names(names)
    ensures Tokens(Barred(names)) == names
    ensures '|' in Barred(names) <==> |names| > 1
  {
    hide Tokens;
    PlainToken(names[0]);
    if |names| == 1 {
      assert names == [names[0]];
    } else {
      TokensOfBarred(names[1..]);
      TokensJoin(names[0], Barred(names[1..]));
      assert names == [names[0]] + names[1..];
      var s := names[0] + "|" + Barred(names[1..]);
      assert s[|names[0]|] == '|';
    }
  }

  lemma AlternativesOfBarred(names: seq<string>)
    requires Names(names)
    ensures Alternatives(Barred(names)) == names
  {
    TokensOfBarred(names);
    assert |names| == 1 ==> names == [Barred(names)];
  }

  /** Every part of the command is a list of names with bars between them. */
  ghost predicate Written<C>(c: Command<C>, choices: seq<seq<string>>) {
    && |choices| == |c.parts|
    && forall i | 0 <= i < |choices| :: Names(choices[i]) && c.parts[i] == Barred(choices[i])
  }

  lemma ChoicesOfWritten<C>(c: Command<C>, choices: seq<seq<string>>)
    requires Written(c, choices)
    ensures Choices(c.parts) == choices
  {
    forall i | 0 <= i < |choices| ensures Choices(c.parts)[i] == choices[i] {
      AlternativesOfBarred(choices[i]);
    }
  }

  /** After any list of commands, every choice of one name for each of the first parts of
      any command is a path of the tree: no alternative is left out. */
  lemma EveryAlternativeIsThere<C(!new)>(cmds: seq<Command<C>>, k: nat, choices: seq<seq<string>>, p: Path)
    requires k < |cmds| && Written(cmds[k], choices)
    requires 0 < |p| <= |choices| && forall i | 0 <= i < |p| :: p[i] in choices[i]
    ensures p in InstalledAll(cmds)
  {
    hide InstalledAll;
    ChoicesOfWritten(cmds[k], choices);
    assert Spelled(cmds, k, p);
    TreeContents(cmds, p);
  }

  /** A tree of one command: its paths are the beginnings of its expansions, and exactly
      the whole expansions have a final node, which carries the command. */
  lemma TreeOfOne<C(!new)>(c: Command<C>, choices: seq<seq<string>>, p: Path)
    requires Written(c, choices)
    ensures var t := InstalledAll([c]);
            && (p in t && t[p].kind != Term <==>
                0 < |p| <= |choices| && forall i | 0 <= i < |p| :: p[i] in choices[i])
            && (p in t && t[p].kind == Term <==>
                |p| == |choices| + 1 && 1 < |p| && p[|choices|] == "<cr>"
                && forall i | 0 <= i < |choices| :: p[i] in choices[i])
            && (p in t ==> t[p].command == c.id)
  {
    assert [c][..0] == [];
    ChoicesOfWritten(c, choices);
    InstalledIs<C>(map[], c, p);
    assert InstalledAll([c]) == Installed(InstalledAll([]), c);
    if Ends(choices, p) {
      assert [] + p[..|choices|] == p[..|choices|];
    }
  }

  // ----- Node types --------------------------------------------------------

  lemma KindsOfNames(name: string)
    ensures KindOf(name) == WordKind <==> name == "WORD"
    ensures KindOf(name) == LineKind <==> name == "LINE"
    ensures KindOf(name) == CharKind <==> name == "CHAR"
    ensures KindOf(name) == IntKind <==> |name| >= 3 && name[..3] == "INT"
    ensures KindOf(name) in {ListKind, IntListKind} <==> |name| >= 4 && name[..4] == "LIST"
  {
    hide HasListRange;
    Begins("INT", name);
    Begins("LIST", name);
    assert "LIST" <= name ==> name[2] == 'S';
    assert name == "LINE" ==> name[2] == 'N';
  }

  lemma Begins(p: string, name: string)
    requires p != ""
    ensures p <= name <==> |p| <= |name| && name[..|p|] == p
    ensures p <= name ==> name[0] == p[0] && forall i | 0 <= i < |p| :: name[i] == p[i]
  {
  }

  ghost predicate Digits(s: string) {
    s != "" && forall i | 0 <= i < |s| :: '0' <= s[i] <= '9'
  }

  lemma {:induction false} SkipsDigits(s: string, more: string)
    requires forall i | 0 <= i < |s| :: '0' <= s[i] <= '9'
    requires more == "" || !IsDigit(more[0])
    ensures SkipWhile(s + more, IsDigit) == more
    decreases |s|
  {
    if s == "" {
      assert s + more == more;
    } else {
      assert (s + more)[1..] == s[1..] + more;
      SkipsDigits(s[1..], more);
    }
  }

  lemma SkipsNumber(s: string, more: string)
    requires Digits(s) && (more == "" || !IsDigit(more[0]))
    ensures SkipNumber(s + more) == Some(more)
  {
    SkipsDigits(s, more);
    assert (s + more)[0] == s[0];
    assert SkipWhile(s + more, IsSpace) == s + more;
  }

  /** A list of numbers has a range of two numbers in its name; other lists do not. */
  lemma RangesOfLists(a: string, b: string)
    requires Digits(a) && Digits(b)
    ensures KindOf("LIST[" + a + "-" + b + "]") == IntListKind
    ensures KindOf("LIST") == ListKind
  {
    var name := "LIST[" + a + "-" + b + "]";
    assert name[5..] == a + ("-" + b + "]");
    SkipsNumber(a, "-" + b + "]");
    assert ("-" + b + "]")[1..] == b + "]";
    SkipsNumber(b, "]");
    assert name[..5] == "LIST[" && name[..4] == "LIST";
    KindsOfNames(name);
    assert HasListRange(name);
  }
}
