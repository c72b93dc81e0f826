/** scripts/prepareRelease/changeScopeInFile.ts: replacing the scope of module names in a text, one
    name after another, against replacing them all at once. */
module Rescope {

  /** The old scope with its slash. */
  const BITGO: string := "@bitgo/"

  /** No character means anything special in a regular expression or in a replacement. */
  predicate Literal(s: string) {
    forall c :: c in s ==> c !in "\\^$.|?*+()[]{}"
  }

  predicate Occurs(t: string, pat: string) {
    exists i :: 0 <= i <= |t| && pat <= t[i..]
  }

  /** A module of the old scope: nothing but its first character is an '@'. */
  predicate Scoped(name: string) {
    BITGO <= name && '@' !in name[1..]
  }

  /** The names the script is for: modules of the old scope, and names that do not mention it. */
  predicate NameOk(name: string) {
    name != "" && Literal(name) && (Scoped(name) || !Occurs(name, BITGO))
  }

  predicate NamesOk(names: seq<string>) {
    forall k :: 0 <= k < |names| ==> NameOk(names[k])
  }

  // ----- The script

  /** `s.replace(pat, repl)` for a literal pattern: the first occurrence. */
  function ReplaceFirst(s: string, pat: string, repl: string): string {
    if pat <= s then repl + s[|pat|..]
    else if s == "" then ""
    else [s[0]] + ReplaceFirst(s[1..], pat, repl)
  }

  /** `s.replace(new RegExp(pat, 'g'), repl)` for literal text: every occurrence, from the left,
      none overlapping the one before. */
  function ReplaceAll(s: string, pat: string, repl: string): string
    requires pat != ""
  {
    if s == "" then ""
    else if pat <= s then repl + ReplaceAll(s[|pat|..], pat, repl)
    else [s[0]] + ReplaceAll(s[1..], pat, repl)
  }

  /** `getNewModuleName(moduleName, targetScope)` */
  function NewName(name: string, scope: string): string {
    ReplaceFirst(name, BITGO, scope + "/")
  }

  /** One name after another. */
  function Sequential(t: string, names: seq<string>, scope: string): string
    requires NamesOk(names)
    decreases |names|
  {
    if names == [] then t
    else Sequential(ReplaceAll(t, names[0], NewName(names[0], scope)), names[1..], scope)
  }

  /** `updateModuleNames(input, moduleNames, targetScope)` */
  method UpdateModuleNames(input: string, names: seq<string>, scope: string) returns (text: string)
    requires NamesOk(names) && Literal(scope)
    ensures text == Sequential(input, names, scope)
    ensures GoodScope(scope) ==> text == Rewrite(input, names, scope)
  {
    text := input;
    for k := 0 to |names|
      invariant Sequential(input, names, scope) == Sequential(text, names[k..], scope)
    {
      assert names[k..][0] == names[k] && names[k..][1..] == names[k + 1..];
      text := ReplaceAll(text, names[k], NewName(names[k], scope));
    }
    if GoodScope(scope) {
      SequentialIsSimultaneous(input, names, scope);
    }
  }

  // ----- All names at once

  /** Some module of the old scope is named at the start of the text. */
  predicate Hit(t: string, names: seq<string>) {
    exists k :: 0 <= k < |names| && Scoped(names[k]) && names[k] <= t
  }

  /** The text with the scope exchanged at exactly the places where a module of the old scope is
      named. */
  function Rewrite(t: string, names: seq<string>, scope: string): string {
    if t == "" then ""
    else if Hit(t, names) && BITGO <= t then scope + "/" + Rewrite(t[|BITGO|..], names, scope)
    else [t[0]] + Rewrite(t[1..], names, scope)
  }

  /** The target scope starts like a scope and does not bring the old one back. */
  predicate FreshScope(scope: string) {
    scope != "" && scope[0] == '@' && !Occurs(scope + "/", BITGO)
  }

  predicate GoodScope(scope: string) {
    scope == "@bitgo" || FreshScope(scope)
  }

  lemma HitIsBitgo(t: string, names: seq<string>)
    requires Hit(t, names)
    ensures BITGO <= t && t[0] == '@'
  {
  }

  // ----- One name

  lemma {:induction false} ReplaceBySame(t: string, name: string)
    requires name != ""
    ensures ReplaceAll(t, name, name) == t
  {
    if t != "" {
      ReplaceBySame(if name <= t then t[|name|..] else t[1..], name);
    }
  }

  lemma {:induction false} NothingToReplace(s: string, pat: string, repl: string)
    requires !Occurs(s, pat)
    ensures ReplaceFirst(s, pat, repl) == s
  {
    assert s[0..] == s;
    if s != "" {
      forall i | 0 <= i <= |s[1..]|
        ensures !(pat <= s[1..][i..])
      {
        assert s[1..][i..] == s[i + 1..];
      }
      NothingToReplace(s[1..], pat, repl);
    }
  }

  /** Text without '@' is copied. */
  lemma {:induction false} CopiesPlain(x: string, t: string, names: seq<string>, scope: string)
    requires '@' !in x
    ensures Rewrite(x + t, names, scope) == x + Rewrite(t, names, scope)
  {
    if x == "" {
      assert x + t == t;
    } else {
      assert (x + t)[0] == x[0] && (x + t)[1..] == x[1..] + t;
      if Hit(x + t, names) {
        HitIsBitgo(x + t, names);
      }
      CopiesPlain(x[1..], t, names, scope);
    }
  }

  /** A module name at the start of the text: its scope is exchanged and the rest of it copied. */
  lemma NameAtStart(t: string, name: string, scope: string)
    requires Scoped(name) && name <= t
    ensures Rewrite(t, [name], scope) == NewName(name, scope) + Rewrite(t[|name|..], [name], scope)
  {
    hide Literal, Occurs;
    var suffix, rest := name[|BITGO|..], t[|name|..];
    assert [name][0] == name && Hit(t, [name]);
    assert t[|BITGO|..] == suffix + rest;
    CopiesPlain(suffix, rest, [name], scope);
    NewNameIs(name, scope);
    assert scope + "/" + (suffix + Rewrite(rest, [name], scope)) == scope + "/" + suffix + Rewrite(rest, [name], scope);
  }

  lemma NewNameIs(name: string, scope: string)
    requires Scoped(name)
    ensures NewName(name, scope) == scope + "/" + name[|BITGO|..]
  {
  }

  /** No module name at the start of the text: its first character is copied. */
  lemma NoNameAtStart(t: string, name: string, scope: string)
    requires t != "" && !(name <= t)
    ensures Rewrite(t, [name], scope) == [t[0]] + Rewrite(t[1..], [name], scope)
  {
    assert !Hit(t, [name]);
  }

  lemma {:induction false} OneName(t: string, name: string, scope: string)
    requires NameOk(name)
    ensures ReplaceAll(t, name, NewName(name, scope)) == Rewrite(t, [name], scope)
  {
    hide Rewrite, NewName, Literal, Occurs;
    if !Scoped(name) {
      NothingToReplaceIn(name, scope);
      ReplaceBySame(t, name);
      NoNames(t, [name], scope);
    } else if t == "" {
      EmptyText([name], scope);
    } else if name <= t {
      NameAtStart(t, name, scope);
      OneName(t[|name|..], name, scope);
    } else {
      NoNameAtStart(t, name, scope);
      OneName(t[1..], name, scope);
    }
  }

  lemma EmptyText(names: seq<string>, scope: string)
    ensures Rewrite("", names, scope) == ""
  {
  }

  lemma NothingToReplaceIn(name: string, scope: string)
    requires NameOk(name) && !Scoped(name)
    ensures NewName(name, scope) == name
  {
    NothingToReplace(name, BITGO, scope + "/");
  }

  lemma {:induction false} NoNames(t: string, names: seq<string>, scope: string)
    requires forall k :: 0 <= k < |names| ==> !Scoped(names[k])
    ensures Rewrite(t, names, scope) == t
  {
    if t != "" {
      NoNames(t[1..], names, scope);
    }
  }

  // ----- Two passes are one

  /** Text without '@' that shows after rewriting was there before: what is written starts with '@'. */
  lemma {:induction false} SurvivesRewriting(x: string, t: string, names: seq<string>, scope: string)
    requires scope != "" && scope[0] == '@' && '@' !in x
    requires x <= Rewrite(t, names, scope)
    ensures x <= t
    decreases |x|
  {
    if x != "" {
      var r := Rewrite(t, names, scope);
      assert x[0] == r[0];
      if Hit(t, names) && BITGO <= t {
        assert false;
      } else {
        assert r[1..] == Rewrite(t[1..], names, scope);
        assert x[1..] <= r[1..];
        SurvivesRewriting(x[1..], t[1..], names, scope);
      }
    }
  }

  lemma OccursLater(p: string, pat: string)
    requires p != "" && Occurs(p[1..], pat)
    ensures Occurs(p, pat)
  {
    var i :| 0 <= i <= |p[1..]| && pat <= p[1..][i..];
    assert p[1..][i..] == p[i + 1..];
  }

  /** The new scope and its slash hold no name of the old one, whatever follows. */
  lemma {:induction false} CopiesScope(p: string, t: string, names: seq<string>, scope: string)
    requires p == "" || p[|p| - 1] == '/'
    requires !Occurs(p, BITGO)
    ensures Rewrite(p + t, names, scope) == p + Rewrite(t, names, scope)
  {
    if p == "" {
      assert p + t == t;
    } else {
      assert (p + t)[0] == p[0] && (p + t)[1..] == p[1..] + t;
      assert p[0..] == p;
      NotInScope(p, 0, t);
      if Occurs(p[1..], BITGO) {
        OccursLater(p, BITGO);
      }
      CopiesScope(p[1..], t, names, scope);
    }
  }

  lemma HitOfBoth(t: string, x: seq<string>, y: seq<string>)
    ensures Hit(t, x + y) <==> Hit(t, x) || Hit(t, y)
  {
    if Hit(t, x) {
      var k :| 0 <= k < |x| && Scoped(x[k]) && x[k] <= t;
      assert (x + y)[k] == x[k];
    }
    if Hit(t, y) {
      var k :| 0 <= k < |y| && Scoped(y[k]) && y[k] <= t;
      assert (x + y)[|x| + k] == y[k];
    }
    if Hit(t, x + y) {
      var k :| 0 <= k < |x + y| && Scoped((x + y)[k]) && (x + y)[k] <= t;
      if k < |x| {
        assert x[k] <= t;
      } else {
        assert y[k - |x|] <= t;
      }
    }
  }

  /** A name that was not rewritten by the first pass stands unchanged after it. */
  lemma NameSurvives(t: string, name: string, names: seq<string>, scope: string)
    requires Scoped(name) && name <= t && !Hit(t, names)
    ensures Rewrite(t, names, scope) == name + Rewrite(t[|name|..], names, scope)
  {
    assert t[1..] == name[1..] + t[|name|..];
    CopiesPlain(name[1..], t[|name|..], names, scope);
    assert [t[0]] + (name[1..] + Rewrite(t[|name|..], names, scope)) == name + Rewrite(t[|name|..], names, scope);
  }

  /** Rewriting makes no name appear where none stood. */
  lemma NoNewName(t: string, x: seq<string>, y: seq<string>, scope: string)
    requires scope != "" && scope[0] == '@' && t != "" && !Hit(t, x)
    ensures Hit(Rewrite(t, x, scope), y) <==> Hit(t, y)
  {
    var r := Rewrite(t, x, scope);
    assert r == [t[0]] + Rewrite(t[1..], x, scope);
    if Hit(r, y) {
      var k :| 0 <= k < |y| && Scoped(y[k]) && y[k] <= r;
      assert y[k][1..] <= r[1..] && r[1..] == Rewrite(t[1..], x, scope);
      SurvivesRewriting(y[k][1..], t[1..], x, scope);
      assert y[k] == [y[k][0]] + y[k][1..] && y[k] <= t;
    }
    if Hit(t, y) {
      var k :| 0 <= k < |y| && Scoped(y[k]) && y[k] <= t;
      NameSurvives(t, y[k], x, scope);
      assert y[k] <= r;
    }
  }

  lemma {:induction false} Compose(t: string, x: seq<string>, y: seq<string>, scope: string)
    requires FreshScope(scope)
    ensures Rewrite(Rewrite(t, x, scope), y, scope) == Rewrite(t, x + y, scope)
    decreases |t|
  {
    hide Hit;
    if t != "" {
      HitOfBoth(t, x, y);
      if Hit(t, x) {
        HitIsBitgo(t, x);
        var rest := t[|BITGO|..];
        CopiesScope(scope + "/", Rewrite(rest, x, scope), y, scope);
        assert Rewrite(t, x, scope) == (scope + "/") + Rewrite(rest, x, scope);
        Compose(rest, x, y, scope);
      } else {
        NoNewName(t, x, y, scope);
        var r := Rewrite(t, x, scope);
        assert r == [t[0]] + Rewrite(t[1..], x, scope);
        if Hit(t, y) {
          HitIsBitgo(t, y);
          HitIsBitgo(r, y);
          HeadCopied(t, x, scope);
          Compose(t[|BITGO|..], x, y, scope);
        } else {
          assert r[1..] == Rewrite(t[1..], x, scope);
          Compose(t[1..], x, y, scope);
        }
      }
    }
  }

  /** The old scope at the start is copied when no name is there. */
  lemma HeadCopied(t: string, names: seq<string>, scope: string)
    requires BITGO <= t && !Hit(t, names)
    ensures
      var r := Rewrite(t, names, scope);
      BITGO <= r && r[|BITGO|..] == Rewrite(t[|BITGO|..], names, scope)
  {
    NameSurvives(t, BITGO, names, scope);
  }

  // ----- The laws of re-scoping

  lemma {:induction false} SequentialIsRewrite(t: string, done: seq<string>, names: seq<string>, scope: string)
    requires NamesOk(names)
    requires FreshScope(scope)
    ensures Sequential(Rewrite(t, done, scope), names, scope) == Rewrite(t, done + names, scope)
    decreases |names|
  {
    if names == [] {
      assert done + names == done;
    } else {
      OneName(Rewrite(t, done, scope), names[0], scope);
      Compose(t, done, [names[0]], scope);
      SequentialIsRewrite(t, done + [names[0]], names[1..], scope);
      assert done + [names[0]] + names[1..] == done + names;
    }
  }

  /** Re-scoping to the old scope changes nothing. */
  lemma {:induction false} SameScope(t: string, names: seq<string>)
    ensures Rewrite(t, names, "@bitgo") == t
  {
    if t != "" {
      if Hit(t, names) && BITGO <= t {
        SameScope(t[|BITGO|..], names);
      } else {
        SameScope(t[1..], names);
      }
    }
  }

  lemma {:induction false} SequentialSameScope(t: string, names: seq<string>)
    requires NamesOk(names)
    ensures Sequential(t, names, "@bitgo") == t
    decreases |names|
  {
    if names != [] {
      OneName(t, names[0], "@bitgo");
      SameScope(t, [names[0]]);
      SequentialSameScope(t, names[1..]);
    }
  }

  /** One name after another gives what rewriting all names at once gives. */
  lemma SequentialIsSimultaneous(t: string, names: seq<string>, scope: string)
    requires NamesOk(names) && GoodScope(scope)
    ensures Sequential(t, names, scope) == Rewrite(t, names, scope)
  {
    if scope == "@bitgo" {
      SequentialSameScope(t, names);
      SameScope(t, names);
    } else {
      NoNames(t, [], scope);
      SequentialIsRewrite(t, [], names, scope);
      assert [] + names == names;
    }
  }

  lemma {:induction false} RewriteBySet(t: string, x: seq<string>, y: seq<string>, scope: string)
    requires forall name :: name in x <==> name in y
    ensures Rewrite(t, x, scope) == Rewrite(t, y, scope)
    decreases |t|
  {
    if t != "" {
      SameHits(t, x, y);
      SameHits(t, y, x);
      if Hit(t, x) && BITGO <= t {
        RewriteBySet(t[|BITGO|..], x, y, scope);
      } else {
        RewriteBySet(t[1..], x, y, scope);
      }
    }
  }

  lemma SameHits(t: string, x: seq<string>, y: seq<string>)
    requires forall name :: name in x ==> name in y
    ensures Hit(t, x) ==> Hit(t, y)
  {
    if Hit(t, x) {
      var k :| 0 <= k < |x| && Scoped(x[k]) && x[k] <= t;
      assert x[k] in y;
      var j :| 0 <= j < |y| && y[j] == x[k];
    }
  }

  /** The order of the names, and naming one twice, make no difference. */
  lemma OrderIrrelevant(t: string, x: seq<string>, y: seq<string>, scope: string)
    requires NamesOk(x) && NamesOk(y) && GoodScope(scope)
    requires forall name :: name in x <==> name in y
    ensures Sequential(t, x, scope) == Sequential(t, y, scope)
  {
    SequentialIsSimultaneous(t, x, scope);
    SequentialIsSimultaneous(t, y, scope);
    RewriteBySet(t, x, y, scope);
  }

  /** What becomes of a name of the old scope. */
  lemma ScopeExchanged(x: string, scope: string)
    requires '@' !in x && Literal("@bitgo/" + x) && GoodScope(scope)
    ensures NamesOk(["@bitgo/" + x])
    ensures NewName("@bitgo/" + x, scope) == scope + "/" + x
    ensures Sequential("@bitgo/" + x, ["@bitgo/" + x], scope) == scope + "/" + x
  {
    hide Literal, GoodScope, Sequential, Rewrite;
    var name := "@bitgo/" + x;
    assert name == BITGO + x && name[|BITGO|..] == x;
    NewNameIs(name, scope);
    OnlyName(name);
    SequentialIsSimultaneous(name, [name], scope);
    WholeName(x, [name], scope);
  }

  lemma OnlyName(name: string)
    requires Literal(name) && Scoped(name)
    ensures NamesOk([name])
  {
  }

  /** Running the script again changes nothing. */
  lemma Idempotent(t: string, names: seq<string>, scope: string)
    requires NamesOk(names) && GoodScope(scope)
    ensures Sequential(Sequential(t, names, scope), names, scope) == Sequential(t, names, scope)
  {
    var r := Sequential(t, names, scope);
    SequentialIsSimultaneous(t, names, scope);
    SequentialIsSimultaneous(r, names, scope);
    if scope == "@bitgo" {
      SameScope(r, names);
    } else {
      Compose(t, names, names, scope);
      RewriteBySet(t, names + names, names, scope);
    }
  }

  /** No module of the old scope is named anywhere in the result, unless the scope is the old one. */
  lemma {:induction false} NoneLeft(t: string, names: seq<string>, scope: string, i: nat)
    requires FreshScope(scope)
    requires i <= |Rewrite(t, names, scope)|
    ensures !Hit(Rewrite(t, names, scope)[i..], names)
    decreases |t|
  {
    var r := Rewrite(t, names, scope);
    if t == "" {
    } else if Hit(t, names) && BITGO <= t {
      var s, rest := scope + "/", Rewrite(t[|BITGO|..], names, scope);
      assert r == s + rest;
      if i < |s| {
        assert r[i..] == s[i..] + rest;
        NotInScope(s, i, rest);
      } else {
        assert r[i..] == rest[i - |s|..];
        NoneLeft(t[|BITGO|..], names, scope, i - |s|);
      }
    } else if i == 0 {
      assert r[0..] == r;
      if Hit(t, names) {
        HitIsBitgo(t, names);
      }
      NoNewName(t, names, names, scope);
    } else {
      assert r[i..] == Rewrite(t[1..], names, scope)[i - 1..];
      NoneLeft(t[1..], names, scope, i - 1);
    }
  }

  lemma NotInScope(s: string, i: nat, rest: string)
    requires i < |s| && s[|s| - 1] == '/' && !Occurs(s, BITGO)
    ensures !(BITGO <= s[i..] + rest)
  {
    var p := s[i..];
    assert |p| < |BITGO| ==> (p + rest)[|p| - 1] == '/';
    assert |p| >= |BITGO| ==> ((p + rest)[..|BITGO|] == p[..|BITGO|] && !(BITGO <= p));
  }

  // ----- The condition on the scope is exact

  lemma {:induction false} Grows(t: string, names: seq<string>, scope: string)
    requires |scope| + 1 > |BITGO| && names == [BITGO]
    ensures |Rewrite(t, names, scope)| >= |t|
    ensures Occurs(t, BITGO) ==> |Rewrite(t, names, scope)| > |t|
    decreases |t|
  {
    assert names[0] == BITGO && Scoped(BITGO);
    if t != "" {
      if BITGO <= t {
        Grows(t[|BITGO|..], names, scope);
      } else {
        Grows(t[1..], names, scope);
        if Occurs(t, BITGO) {
          var i :| 0 <= i <= |t| && BITGO <= t[i..];
          assert t[0..] == t;
          assert t[1..][i - 1..] == t[i..];
        }
      }
    }
  }

  /** The text that is one name becomes the new scope and the rest of the name. */
  lemma WholeName(x: string, names: seq<string>, scope: string)
    requires '@' !in x && Scoped(BITGO + x) && BITGO + x in names
    ensures Rewrite(BITGO + x, names, scope) == scope + "/" + x
  {
    var t := BITGO + x;
    var k :| 0 <= k < |names| && names[k] == t;
    assert Hit(t, names) && t[|BITGO|..] == x;
    CopiesPlain(x, "", names, scope);
    assert x + "" == x;
  }

  lemma TwoNames(t: string, n1: string, n2: string, scope: string)
    requires NameOk(n1) && NameOk(n2)
    ensures NamesOk([n1, n2])
    ensures Sequential(t, [n1, n2], scope) == Rewrite(Rewrite(t, [n1], scope), [n2], scope)
  {
    hide NameOk, ReplaceAll, NewName, Rewrite;
    var names := [n1, n2];
    assert names[0] == n1 && names[1..] == [n2] && [n2][0] == n2 && [n2][1..] == [];
    OneName(t, n1, scope);
    OneName(Rewrite(t, [n1], scope), n2, scope);
    assert Sequential(t, names, scope) == Sequential(Rewrite(t, [n1], scope), [n2], scope);
    assert Sequential(Rewrite(Rewrite(t, [n1], scope), [n2], scope), [], scope) == Rewrite(Rewrite(t, [n1], scope), [n2], scope);
  }

  /** A scope that does not start with '@' can complete a name that stood before it. */
  lemma WrongStart(scope: string) returns (t: string, names: seq<string>)
    requires Literal(scope) && (scope == "" || scope[0] != '@')
    ensures NamesOk(names) && Sequential(t, names, scope) != Rewrite(t, names, scope)
  {
    hide Rewrite, Sequential;
    var s := scope + "/";
    var n1, n2 := BITGO + "y", BITGO + [s[0]];
    names, t := [n1, n2], BITGO + n1;
    WitnessNames(n1, n2, s[0]);
    TwoNames(t, n1, n2, scope);
    assert t[|BITGO|] == '@' && t[|BITGO|..] == n1;
    assert !Hit(t, [n1]) && !Hit(t, names);
    HeadCopied(t, [n1], scope);
    HeadCopied(t, names, scope);
    assert [n1][0] == n1;
    WholeName("y", [n1], scope);
    FirstOfHit(BITGO + (s + "y"), n2, scope);
    assert Rewrite(t, [n1], scope) == BITGO + (s + "y");
  }

  lemma WitnessNames(n1: string, n2: string, c: char)
    requires n1 == BITGO + "y" && n2 == BITGO + [c] && c != '@' && Literal([c])
    ensures Scoped(n1) && Scoped(n2) && NameOk(n1) && NameOk(n2)
  {
    assert [c][0] == c && c in [c];
  }

  lemma FirstOfHit(u: string, name: string, scope: string)
    requires Scoped(name) && name <= u
    ensures var r := Rewrite(u, [name], scope); r != "" && r[0] == (scope + "/")[0]
  {
    assert [name][0] == name && Hit(u, [name]);
  }

  lemma NestedNames(n1: string)
    requires n1 == BITGO + "x"
    ensures Scoped(n1) && Scoped(BITGO) && NameOk(n1) && NameOk(BITGO)
  {
  }

  lemma LongerThanOld(scope: string)
    requires scope != "@bitgo" && Occurs(scope + "/", BITGO)
    ensures |scope| + 1 > |BITGO|
  {
    var s := scope + "/";
    var i :| 0 <= i <= |s| && BITGO <= s[i..];
    assert |s| == |BITGO| ==> s == BITGO;
    assert scope == s[..|s| - 1];
    assert BITGO[..6] == "@bitgo";
  }

  /** A scope that brings the old one back is rewritten again by the next name. */
  lemma OldScopeAgain(scope: string) returns (t: string, names: seq<string>)
    requires Literal(scope) && scope != "" && scope[0] == '@' && scope != "@bitgo" && Occurs(scope + "/", BITGO)
    ensures NamesOk(names) && Sequential(t, names, scope) != Rewrite(t, names, scope)
  {
    hide Rewrite, Sequential, NameOk;
    var s := scope + "/";
    var n1 := BITGO + "x";
    names, t := [n1, BITGO], n1;
    NestedNames(n1);
    var i :| 0 <= i <= |s| && BITGO <= s[i..];
    LongerThanOld(scope);
    TwoNames(t, n1, BITGO, scope);
    assert names[0] == n1;
    WholeName("x", [n1], scope);
    WholeName("x", names, scope);
    var u := s + "x";
    assert BITGO <= u[i..];
    Grows(u, [BITGO], scope);
  }

  /** Rewriting name by name equals rewriting all names at once, for every text and every list of
      names, if and only if the target scope is good. */
  lemma ExactlyGoodScopes(scope: string)
    requires Literal(scope)
    ensures GoodScope(scope) <==>
      forall t: string, names: seq<string> | NamesOk(names) :: Sequential(t, names, scope) == Rewrite(t, names, scope)
  {
    if GoodScope(scope) {
      forall t: string, names: seq<string> | NamesOk(names)
        ensures Sequential(t, names, scope) == Rewrite(t, names, scope)
      {
        SequentialIsSimultaneous(t, names, scope);
      }
    } else if scope == "" || scope[0] != '@' {
      var t, names := WrongStart(scope);
    } else {
      var t, names := OldScopeAgain(scope);
    }
  }

  lemma OnePass(t: string, name: string, scope: string)
    requires NameOk(name)
    ensures NamesOk([name]) && Sequential(t, [name], scope) == Rewrite(t, [name], scope)
  {
    hide NameOk, ReplaceAll, NewName, Rewrite;
    assert [name][0] == name && [name][1..] == [];
    OneName(t, name, scope);
    assert Sequential(Rewrite(t, [name], scope), [], scope) == Rewrite(t, [name], scope);
  }

  /** A scope that does not start with '@' makes a module name of the old scope appear. */
  lemma NameAppears(scope: string) returns (t: string, name: string)
    requires Literal(scope) && (scope == "" || scope[0] != '@')
    ensures Scoped(name) && NamesOk([name])
    ensures var r := Sequential(t, [name], scope); r[0..] == r && name <= r && Sequential(r, [name], scope) != r
  {
    hide Rewrite, Sequential, NamesOk;
    var s := scope + "/";
    name := BITGO + [s[0]];
    t := BITGO + name;
    WitnessNames(BITGO + "y", name, s[0]);
    assert t[|BITGO|] == '@' && t[|BITGO|..] == name && [name][0] == name;
    assert !Hit(t, [name]);
    HeadCopied(t, [name], scope);
    WholeName([s[0]], [name], scope);
    var r := Rewrite(t, [name], scope);
    assert r == BITGO + (s + [s[0]]) && name <= r;
    OnePass(t, name, scope);
    OnePass(r, name, scope);
    FirstOfHit(r, name, scope);
  }

  /** A scope that brings the old one back leaves the name that was replaced, in a longer text. */
  lemma NameStays(scope: string)
    requires Literal(scope) && scope != "@bitgo" && Occurs(scope + "/", BITGO)
    ensures NamesOk([BITGO])
    ensures
      var r := Sequential(BITGO, [BITGO], scope);
      Occurs(r, BITGO) && Sequential(r, [BITGO], scope) != r
  {
    hide Rewrite, Sequential, NamesOk;
    NestedNames(BITGO + "x");
    LongerThanOld(scope);
    assert [BITGO][0] == BITGO && BITGO + "" == BITGO && scope + "/" + "" == scope + "/";
    WholeName("", [BITGO], scope);
    OnePass(BITGO, BITGO, scope);
    OnePass(scope + "/", BITGO, scope);
    Grows(scope + "/", [BITGO], scope);
  }

  /** Running the script again changes nothing, for every text and every list of names, if and only if
      the target scope is good. */
  lemma ExactlyIdempotent(scope: string)
    requires Literal(scope)
    ensures GoodScope(scope) <==>
      forall t: string, names: seq<string> | NamesOk(names) ::
        Sequential(Sequential(t, names, scope), names, scope) == Sequential(t, names, scope)
  {
    hide Sequential, NamesOk, Literal;
    if GoodScope(scope) {
      forall t: string, names: seq<string> | NamesOk(names)
        ensures Sequential(Sequential(t, names, scope), names, scope) == Sequential(t, names, scope)
      {
        Idempotent(t, names, scope);
      }
    } else if scope == "" || scope[0] != '@' {
      var t, name := NameAppears(scope);
    } else {
      NameStays(scope);
    }
  }

  /** No module of the old scope is left anywhere, for every text and every list of names, if and only
      if the target scope starts like a scope and does not bring the old one back. */
  lemma ExactlyNoneLeft(scope: string)
    requires Literal(scope)
    ensures FreshScope(scope) <==>
      forall t: string, names: seq<string>, i: nat | NamesOk(names) && i <= |Sequential(t, names, scope)| ::
        !Hit(Sequential(t, names, scope)[i..], names)
  {
    hide Sequential, NamesOk, Literal, Hit;
    if FreshScope(scope) {
      forall t: string, names: seq<string>, i: nat | NamesOk(names) && i <= |Sequential(t, names, scope)|
        ensures !Hit(Sequential(t, names, scope)[i..], names)
      {
        SequentialIsSimultaneous(t, names, scope);
        NoneLeft(t, names, scope, i);
      }
    } else if scope == "@bitgo" {
      NestedNames(BITGO + "x");
      OneOk(BITGO);
      SequentialSameScope(BITGO, [BITGO]);
      HitByName(Sequential(BITGO, [BITGO], scope), BITGO, 0);
    } else if scope == "" || scope[0] != '@' {
      var t, name := NameAppears(scope);
      HitByName(Sequential(t, [name], scope), name, 0);
    } else {
      NameStays(scope);
      var r := Sequential(BITGO, [BITGO], scope);
      var i :| 0 <= i <= |r| && BITGO <= r[i..];
      NestedNames(BITGO + "x");
      HitByName(r, BITGO, i);
    }
  }

  lemma OneOk(name: string)
    requires NameOk(name)
    ensures NamesOk([name])
  {
  }

  lemma HitByName(t: string, name: string, i: nat)
    requires Scoped(name) && i <= |t| && name <= t[i..]
    ensures Hit(t[i..], [name])
  {
    assert [name][0] == name;
  }
}
