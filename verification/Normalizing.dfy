/** What the normal forms the plan compares keep of commands and hosts. */
module Normalizing {
  import opened Wrappers
  import opened Options
  import opened ReadVersions
  import opened States
  import opened Configs
  import opened NormalForms
  import opened Services
  import opened Planning
  import opened Provisioning
  import opened Convergence

  // ---------- hosts are compared in any order ----------

  lemma {:induction false} BelowTotal(s: string, t: string)
    ensures Below(s, t) || Below(t, s)
    ensures Below(s, t) && Below(t, s) ==> s == t
  {
    if s != [] && t != [] && s[0] == t[0] {
      BelowTotal(s[1..], t[1..]);
      assert s == [s[0]] + s[1..] && t == [t[0]] + t[1..];
    }
  }

  lemma {:induction false} BelowTransitive(s: string, t: string, u: string)
    requires Below(s, t) && Below(t, u)
    ensures Below(s, u)
  {
    if s != [] && s[0] == t[0] && t[0] == u[0] {
      BelowTransitive(s[1..], t[1..], u[1..]);
    }
  }

  lemma {:induction false} InsertCommutes(s: string, t: string, strings: seq<string>)
    ensures Insert(s, Insert(t, strings)) == Insert(t, Insert(s, strings))
    decreases |strings|
  {
    BelowTotal(s, t);
    if strings != [] {
      var head := strings[0];
      if Below(s, head) && Below(t, s) {
        BelowTransitive(t, s, head);
      }
      if Below(t, head) && Below(s, t) {
        BelowTransitive(s, t, head);
      }
      if !Below(s, head) && !Below(t, head) {
        InsertCommutes(s, t, strings[1..]);
      }
    }
  }

  lemma {:induction false} SortPulls(strings: seq<string>, i: nat)
    requires i < |strings|
    ensures Sort(strings) == Insert(strings[i], Sort(strings[..i] + strings[i + 1..]))
  {
    var others := strings[..i] + strings[i + 1..];
    if i == 0 {
      assert others == strings[1..];
    } else {
      SortPulls(strings[1..], i - 1);
      assert others[1..] == strings[1..][..i - 1] + strings[1..][i..];
      InsertCommutes(strings[0], strings[i], Sort(others[1..]));
    }
  }

  /** Sorting forgets the order, and nothing else. */
  lemma {:induction false} SortForgetsOrder(a: seq<string>, b: seq<string>)
    requires multiset(a) == multiset(b)
    ensures Sort(a) == Sort(b)
    decreases |a|
  {
    if a == [] {
      assert |multiset(b)| == 0;
    } else {
      assert a[0] in multiset(b);
      var i :| 0 <= i < |b| && b[i] == a[0];
      var others := b[..i] + b[i + 1..];
      assert a == [a[0]] + a[1..];
      assert b == b[..i] + ([b[i]] + b[i + 1..]);
      assert multiset(others) == multiset(b) - multiset{b[i]};
      assert multiset(a[1..]) == multiset(a) - multiset{a[0]};
      SortForgetsOrder(a[1..], others);
      SortPulls(b, i);
    }
  }

  lemma {:induction false} SortKeepsAll(strings: seq<string>)
    ensures multiset(Sort(strings)) == multiset(strings)
  {
    if strings != [] {
      SortKeepsAll(strings[1..]);
      InsertAdds(strings[0], Sort(strings[1..]));
      assert strings == [strings[0]] + strings[1..];
    }
  }

  lemma {:induction false} InsertAdds(s: string, strings: seq<string>)
    ensures multiset(Insert(s, strings)) == multiset(strings) + multiset{s}
  {
    if strings != [] && !Below(s, strings[0]) {
      InsertAdds(s, strings[1..]);
      assert strings == [strings[0]] + strings[1..];
    }
  }

  predicate Ascending(strings: seq<string>) {
    forall i, j :: 0 <= i < j < |strings| ==> Below(strings[i], strings[j])
  }

  lemma {:induction false} InsertOrders(s: string, strings: seq<string>)
    requires Ascending(strings)
    ensures Ascending(Insert(s, strings))
    ensures forall t :: t in Insert(s, strings) ==> t == s || t in strings
  {
    if strings != [] {
      BelowTotal(s, strings[0]);
      if Below(s, strings[0]) {
        forall t | t in strings ensures Below(s, t) {
          if t != strings[0] {
            BelowTransitive(s, strings[0], t);
          }
        }
      } else {
        InsertOrders(s, strings[1..]);
        var rest := Insert(s, strings[1..]);
        forall t | t in rest ensures Below(strings[0], t) {
        }
        assert Insert(s, strings) == [strings[0]] + rest;
      }
    }
  }

  /** Sorting puts the names in lexicographic order and keeps them all. */
  lemma {:induction false} SortOrders(strings: seq<string>)
    ensures Ascending(Sort(strings)) && multiset(Sort(strings)) == multiset(strings)
  {
    SortKeepsAll(strings);
    if strings != [] {
      SortOrders(strings[1..]);
      InsertOrders(strings[0], Sort(strings[1..]));
    }
  }

  // ---------- joining ----------

  /** A string, cut at every `c`. */
  function Cut(s: string, c: char): (r: seq<string>)
    ensures r != []
  {
    if s == [] then [""]
    else
      var rest := Cut(s[1..], c);
      if s[0] == c then [""] + rest else [[s[0]] + rest[0]] + rest[1..]
  }

  /** All strings, cut at every `c`; no strings count as one empty one. */
  function Words(parts: seq<string>, c: char): seq<string> {
    if parts == [] then [""]
    else if |parts| == 1 then Cut(parts[0], c)
    else Words(parts[..|parts| - 1], c) + Cut(parts[|parts| - 1], c)
  }

  lemma {:induction false} CutAppend(s: string, t: string, c: char)
    ensures Cut(s + [c] + t, c) == Cut(s, c) + Cut(t, c)
  {
    var all := s + [c] + t;
    if s == [] {
      assert all[0] == c && all[1..] == t;
    } else {
      CutAppend(s[1..], t, c);
      assert all[0] == s[0] && all[1..] == s[1..] + [c] + t;
    }
  }

  lemma {:induction false} CutJoin(parts: seq<string>, c: char)
    ensures Cut(Join(parts, [c]), c) == Words(parts, c)
  {
    if |parts| > 1 {
      var init, last := parts[..|parts| - 1], parts[|parts| - 1];
      CutJoin(init, c);
      CutAppend(Join(init, [c]), last, c);
    }
  }

  /** The pieces determine the string. */
  lemma {:induction false} CutInjective(s: string, t: string, c: char)
    ensures Cut(s, c) == Cut(t, c) ==> s == t
    decreases |s|
  {
    if Cut(s, c) == Cut(t, c) && s != [] && t != [] {
      var p, q := Cut(s[1..], c), Cut(t[1..], c);
      assert s == [s[0]] + s[1..] && t == [t[0]] + t[1..];
      assert s[0] == c <==> Cut(s, c)[0] == "";
      assert t[0] == c <==> Cut(t, c)[0] == "";
      assert Cut(s, c)[1..] == if s[0] == c then p else p[1..];
      assert Cut(t, c)[1..] == if t[0] == c then q else q[1..];
      if s[0] != c {
        assert Cut(s, c)[0] == [s[0]] + p[0] && Cut(t, c)[0] == [t[0]] + q[0];
        assert p[0] == Cut(s, c)[0][1..] && q[0] == Cut(t, c)[0][1..];
        assert p == [p[0]] + p[1..] && q == [q[0]] + q[1..];
      }
      CutInjective(s[1..], t[1..], c);
    }
  }

  /** Joined strings are equal exactly when the pieces between the separators are. */
  lemma JoinsExactly(a: seq<string>, b: seq<string>, c: char)
    ensures Join(a, [c]) == Join(b, [c]) <==> Words(a, c) == Words(b, c)
  {
    CutJoin(a, c);
    CutJoin(b, c);
    CutInjective(Join(a, [c]), Join(b, [c]), c);
  }

  // ---------- commands ----------

  lemma {:induction false} NoSettingInEnv(current: seq<ReadEnvironmentVariable>, secrets: map<string, int>,
                                         env: seq<EnvConfig>)
    ensures forall c :: c in EnvChanges(current, secrets, env) ==> !c.Setting?
  {
    if env != [] {
      NoSettingInEnv(current, secrets, env[..|env| - 1]);
    }
  }

  lemma {:induction false} NoSettingInRemovals(current: seq<ReadEnvironmentVariable>, env: seq<EnvConfig>)
    ensures forall c :: c in EnvRemovals(current, env) ==> !c.Setting?
  {
    if current != [] {
      NoSettingInRemovals(current[..|current| - 1], env);
    }
  }

  /** A plan names the command exactly when the commands differ once every argument is cut at
      its spaces. */
  lemma CommandSeen(v: Detail, c: Spec, r: AppState)
    ensures Setting("Cmd") in Changes(v, c, r) <==> Words(Items(v.cmd), ' ') != Words(c.cmd, ' ')
  {
    var change := Setting("Cmd");
    NoSettingInEnv(Items(v.env), r.secretVersions, c.env);
    NoSettingInRemovals(Items(v.env), c.env);
    WithoutExactly(Diff(OfAPI(v), OfConfig(c)), SkipsImage(c));
    DiffExactly(OfAPI(v), OfConfig(c), change);
    JoinsExactly(Items(v.cmd), c.cmd, ' ');
    assert change in Changes(v, c, r) <==> change in SpecChanges(v, c);
  }

  /** For example: splitting an argument in two is a different command, but no change. */
  lemma SplitArgumentUnseen(v: Detail, c: Spec, r: AppState)
    requires v.cmd == SliceOf(["sh -c"]) && c.cmd == ["sh", "-c"]
    ensures Items(v.cmd) != c.cmd && Setting("Cmd") !in Changes(v, c, r)
  {
    assert c.cmd[..1] == ["sh"];
    assert Join(c.cmd, " ") == "sh" + " " + "-c";
    assert Items(v.cmd) == ["sh -c"] && Join(["sh -c"], " ") == "sh -c";
    assert "sh" + " " + "-c" == "sh -c";
    JoinsExactly(Items(v.cmd), c.cmd, ' ');
    CommandSeen(v, c, r);
  }

  /** For example: one empty argument is not no command at all, but no change either. */
  lemma EmptyArgumentUnseen(v: Detail, c: Spec, r: AppState)
    requires v.cmd == NilSlice && c.cmd == [""]
    ensures Items(v.cmd) != c.cmd && Setting("Cmd") !in Changes(v, c, r)
  {
    CommandSeen(v, c, r);
  }

  /** Without spaces in the arguments, only an empty list is taken for one empty argument. */
  lemma PlainCommandSeen(v: Detail, c: Spec, r: AppState)
    requires Free(Items(v.cmd), ' ') && Free(c.cmd, ' ')
    ensures Setting("Cmd") in Changes(v, c, r) <==> OrEmpty(Items(v.cmd)) != OrEmpty(c.cmd)
  {
    CommandSeen(v, c, r);
    FreeWords(Items(v.cmd), ' ');
    FreeWords(c.cmd, ' ');
  }

  predicate Free(parts: seq<string>, c: char) { forall i :: 0 <= i < |parts| ==> c !in parts[i] }

  function OrEmpty(parts: seq<string>): seq<string> { if parts == [] then [""] else parts }

  lemma {:induction false} FreeCut(s: string, c: char)
    requires c !in s
    ensures Cut(s, c) == [s]
  {
    if s != [] {
      FreeCut(s[1..], c);
      assert s == [s[0]] + s[1..];
    }
  }

  lemma {:induction false} FreeWords(parts: seq<string>, c: char)
    requires Free(parts, c)
    ensures Words(parts, c) == OrEmpty(parts)
  {
    if |parts| == 1 {
      FreeCut(parts[0], c);
      assert parts == [parts[0]];
    } else if |parts| > 1 {
      var init, last := parts[..|parts| - 1], parts[|parts| - 1];
      FreeWords(init, c);
      FreeCut(last, c);
      assert parts == init + [last];
    }
  }

  // ---------- hosts ----------

  /** The hosts of two ports compare equal exactly when, sorted and cut at every comma, they are. */
  lemma HostsSeen(h: Slice<string>, g: Slice<string>)
    ensures Hosts(h) == Hosts(g) <==> Words(Sort(Items(h)), ',') == Words(Sort(Items(g)), ',')
  {
    JoinsExactly(Sort(Items(h)), Sort(Items(g)), ',');
  }

  /** So names without commas are seen as a bag, but no names for one empty name. */
  lemma PlainHostsSeen(h: Slice<string>, g: Slice<string>)
    requires Free(Items(h), ',') && Free(Items(g), ',')
    ensures Hosts(h) == Hosts(g) <==> multiset(OrEmpty(Items(h))) == multiset(OrEmpty(Items(g)))
  {
    HostsSeen(h, g);
    PlainHosts(Items(h));
    PlainHosts(Items(g));
    if multiset(OrEmpty(Items(h))) == multiset(OrEmpty(Items(g))) {
      SortForgetsOrder(OrEmpty(Items(h)), OrEmpty(Items(g)));
    }
  }

  lemma PlainHosts(names: seq<string>)
    requires Free(names, ',')
    ensures Words(Sort(names), ',') == Sort(OrEmpty(names))
    ensures multiset(Sort(OrEmpty(names))) == multiset(OrEmpty(names))
  {
    SortKeepsAll(names);
    SortKeepsAll(OrEmpty(names));
    forall i | 0 <= i < |Sort(names)| ensures ',' !in Sort(names)[i] {
      assert Sort(names)[i] in multiset(names);
    }
    FreeWords(Sort(names), ',');
    assert names != [] ==> |multiset(Sort(names))| > 0;
  }

  // ---------- environment variables ----------

  /** The current variable with the key of `e` is what the config says, as far as a plan can
      tell: the recorded version of a secret, the value of any other. */
  predicate LooksRight(current: seq<ReadEnvironmentVariable>, secrets: map<string, int>, e: EnvConfig) {
    var cur := CurrentEnv(current, e.key);
    cur.Some? &&
    if e.secret then e.secretVersion.Some? ==> e.key in secrets && secrets[e.key] == e.secretVersion.value
    else Shown(cur.value) == Text(e)
  }

  /** A plan finds nothing to do about the environment exactly when the keys are the same and
      every variable looks right. */
  lemma EnvSeenExactly(current: seq<ReadEnvironmentVariable>, secrets: map<string, int>, env: seq<EnvConfig>)
    ensures EnvChanges(current, secrets, env) == [] && EnvRemovals(current, env) == [] <==>
            (forall i :: 0 <= i < |env| ==> LooksRight(current, secrets, env[i])) &&
            (forall i :: 0 <= i < |current| ==> Configured(env, current[i].key))
  {
    NoEnvChanges(current, secrets, env);
    NoEnvRemovals(current, env);
    forall i | 0 <= i < |env|
      ensures EnvChange(current, secrets, env[i]) == [] <==> LooksRight(current, secrets, env[i])
    {
    }
  }

  /** The version has the config's variables: it looks like it, and what is to be secret is. */
  predicate HasVariables(current: seq<ReadEnvironmentVariable>, secrets: map<string, int>, env: seq<EnvConfig>) {
    (forall i :: 0 <= i < |current| ==> Configured(env, current[i].key)) &&
    forall i :: 0 <= i < |env| ==>
      LooksRight(current, secrets, env[i]) && CurrentEnv(current, env[i].key).value.secret == env[i].secret
  }

  /** What an empty plan misses is that a variable became secret or ceased to be: of a secret the
      recorded version may be an old one, and of any other the value may only look empty. */
  lemma FlagsUnseen(current: seq<ReadEnvironmentVariable>, secrets: map<string, int>, env: seq<EnvConfig>)
    requires EnvChanges(current, secrets, env) == [] && EnvRemovals(current, env) == []
    requires forall i :: 0 <= i < |current| && current[i].secret ==> current[i].value.isNull
    ensures !HasVariables(current, secrets, env) <==>
            exists i :: 0 <= i < |env| && var cur := CurrentEnv(current, env[i].key);
              cur.Some? && cur.value.secret != env[i].secret &&
              if env[i].secret then env[i].secretVersion.None? || env[i].key in secrets else Text(env[i]) == ""
  {
    EnvSeenExactly(current, secrets, env);
    forall i | 0 <= i < |env| && CurrentEnv(current, env[i].key).Some?
      ensures CurrentEnv(current, env[i].key).value in current
    {
      CurrentIsThere(current, env[i].key);
    }
  }

  lemma {:induction false} CurrentIsThere(current: seq<ReadEnvironmentVariable>, key: string)
    requires CurrentEnv(current, key).Some?
    ensures CurrentEnv(current, key).value in current
  {
    if current[|current| - 1].key != key {
      CurrentIsThere(current[..|current| - 1], key);
    }
  }

  /** An example: a variable that was secret, then was not, and is to be secret again with the
      same version.  The record of the version is never dropped, so the plan is empty, and the
      variable stays readable. */
  lemma SecretAgainUnseen(c1: Spec, c2: Spec, prev: Option<Stored>, m1: Minted, m2: Minted, r: AppState)
    requires c1.env == [EnvConfig("K", Some("s"), true, Some(1))] && c2.env == [EnvConfig("K", Some("x"), false, None)]
    ensures var v := NewStored(c2, Some(NewStored(c1, prev, m1)), m2);
            var current, secrets := Items(Show(v).env), Updated(Updated(r, c1), c2).secretVersions;
            v.env == [Variable("K", Some("x"), false)] &&
            EnvChanges(current, secrets, c1.env) == [] && EnvRemovals(current, c1.env) == []
  {
    var v := NewStored(c2, Some(NewStored(c1, prev, m1)), m2);
    var current, secrets := Items(Show(v).env), Updated(Updated(r, c1), c2).secretVersions;
    assert v.env == [Variable("K", Some("x"), false)];
    assert current == [ReadEnvironmentVariable("K", NilOf("x", false), false)];
    RecordedAt(r.secretVersions, c1.env, "K");
    RecordedAt(Updated(r, c1).secretVersions, c2.env, "K");
    assert c1.env[..0] == [] && c2.env[..0] == [];
    assert LastVersion(c1.env, "K") == Some(1) && LastVersion(c2.env, "K") == None;
    assert c1.env[0].key == "K" && Configured(c1.env, "K");
    EnvSeenExactly(current, secrets, c1.env);
  }
}
