/**
 * The profile skip-list of `VirtualServer._ignore_profile` and the TLS role
 * flags `_parse_profiles` derives from the remaining profiles.
 *
 * `fnmatch` is modelled for the only wildcard the skip list uses, `*`, which
 * matches any run of characters (newlines included); every other pattern
 * character matches itself (POSIX `fnmatch` does not fold case).
 */
module Profiles {
  import opened Strings
  import opened Appliance

  /** `fnmatch(name, pat)` for a pattern whose only special character is `*`. */
  predicate Glob(name: string, pat: string)
    decreases |pat|, |name|
  {
    if pat == [] then name == []
    else if pat[0] == '*' then Glob(name, pat[1..]) || (name != [] && Glob(name[1..], pat))
    else name != [] && name[0] == pat[0] && Glob(name[1..], pat[1..])
  }

  const SkipList: seq<string> := ["fastL4", "fastL4-*", "tcp", "tcp-*-optimized", "udp", "http"]

  predicate EndsWith(s: string, suffix: string) {
    |suffix| <= |s| && s[|s| - |suffix|..] == suffix
  }

  /** Some pattern of `patterns` matches `name`. */
  predicate AnyGlob(name: string, patterns: seq<string>)
    decreases |patterns|
  {
    patterns != [] && (Glob(name, patterns[0]) || AnyGlob(name, patterns[1..]))
  }

  /** `_ignore_profile(name)`: the profile is a known non-TLS one. */
  predicate Ignored(name: string) {
    AnyGlob(name, SkipList)
  }

  /** A pattern without `*` matches exactly itself. */
  lemma {:induction false} GlobLiteral(name: string, lit: string)
    requires '*' !in lit
    ensures Glob(name, lit) <==> name == lit
    decreases |lit|
  {
    if lit != [] && name != [] {
      GlobLiteral(name[1..], lit[1..]);
      if name[0] == lit[0] && name[1..] == lit[1..] {
        assert name == [name[0]] + name[1..] && lit == [lit[0]] + lit[1..];
      }
    }
  }

  /** `*` followed by a literal matches exactly the strings ending in that literal. */
  lemma {:induction false} GlobStarSuffix(name: string, lit: string)
    requires '*' !in lit
    ensures Glob(name, ['*'] + lit) <==> EndsWith(name, lit)
    decreases |name|
  {
    var pat := ['*'] + lit;
    assert pat[1..] == lit;
    GlobLiteral(name, lit);
    if name != [] {
      GlobStarSuffix(name[1..], lit);
      if |lit| <= |name| - 1 {
        assert name[1..][|name| - 1 - |lit|..] == name[|name| - |lit|..];
      }
    }
  }

  /** `a*b` with literal `a` and `b` matches exactly the strings that start with `a`, end with `b` and hold both. */
  lemma {:induction false} GlobInfix(name: string, a: string, b: string)
    requires '*' !in a && '*' !in b
    ensures Glob(name, a + ['*'] + b) <==> |a| + |b| <= |name| && StartsWith(name, a) && EndsWith(name, b)
    decreases |a|
  {
    var pat := a + ['*'] + b;
    if a == [] {
      assert pat == ['*'] + b;
      GlobStarSuffix(name, b);
    } else {
      assert pat[0] == a[0] && pat[1..] == a[1..] + ['*'] + b;
      assert a[0] in a;
      if name != [] {
        GlobInfix(name[1..], a[1..], b);
        if |b| <= |name| - 1 {
          assert name[1..][|name| - 1 - |b|..] == name[|name| - |b|..];
        }
        if |a| <= |name| {
          assert name[..|a|] == [name[0]] + name[1..][..|a| - 1];
          assert a == [a[0]] + a[1..];
        }
      }
    }
  }

  /** The skip list spelled out: which profile names `_ignore_profile` accepts. */
  lemma IgnoredIff(name: string)
    ensures Ignored(name) <==>
      || name == "fastL4"
      || StartsWith(name, "fastL4-")
      || name == "tcp"
      || (|name| >= 14 && StartsWith(name, "tcp-") && EndsWith(name, "-optimized"))
      || name == "udp"
      || name == "http"
  {
    GlobLiteral(name, "fastL4");
    assert "fastL4-*" == "fastL4-" + ['*'] + "";
    GlobInfix(name, "fastL4-", "");
    GlobLiteral(name, "tcp");
    assert "tcp-*-optimized" == "tcp-" + ['*'] + "-optimized";
    GlobInfix(name, "tcp-", "-optimized");
    GlobLiteral(name, "udp");
    GlobLiteral(name, "http");
    assert SkipList[1..][1..][1..][1..][1..][1..] == [];
  }

  /**
   * The value a TLS flag holds after `_parse_profiles` has walked `profiles`,
   * starting from `init`: every profile that is not skipped and whose context
   * is `context` overwrites the flag with whether its TLS profile loads
   * (its `(partition, name)` is in `loadable`).
   */
  function Flag(profiles: seq<ProfileRef>, context: string, loadable: set<(string, string)>, init: bool): bool
    decreases |profiles|
  {
    if profiles == [] then init
    else
      var p := profiles[|profiles| - 1];
      if Decides(p, context) then (p.partition, p.name) in loadable
      else Flag(profiles[..|profiles| - 1], context, loadable, init)
  }

  /** The profiles that decide a flag: not skipped, and in the given context. */
  predicate Decides(p: ProfileRef, context: string) {
    !Ignored(p.name) && p.context == context
  }

  /** The last deciding profile sets the flag: to whether it loads. */
  lemma {:induction false} LastDeciderWins(profiles: seq<ProfileRef>, context: string, loadable: set<(string, string)>, init: bool, k: nat)
    requires k < |profiles| && Decides(profiles[k], context)
    requires forall j | k < j < |profiles| :: !Decides(profiles[j], context)
    ensures Flag(profiles, context, loadable, init) == ((profiles[k].partition, profiles[k].name) in loadable)
    decreases |profiles|
  {
    if k < |profiles| - 1 {
      var front := profiles[..|profiles| - 1];
      assert forall j | k < j < |front| :: front[j] == profiles[j];
      LastDeciderWins(front, context, loadable, init, k);
    }
  }

  /** Without a deciding profile the flag keeps its initial value (False in the constructor). */
  lemma {:induction false} NoDeciderKeepsFlag(profiles: seq<ProfileRef>, context: string, loadable: set<(string, string)>, init: bool)
    requires forall j | 0 <= j < |profiles| :: !Decides(profiles[j], context)
    ensures Flag(profiles, context, loadable, init) == init
    decreases |profiles|
  {
    if profiles != [] {
      var front := profiles[..|profiles| - 1];
      assert forall j | 0 <= j < |front| :: front[j] == profiles[j];
      NoDeciderKeepsFlag(front, context, loadable, init);
    }
  }

  /** A skipped profile, wherever it sits in the list, never changes a flag. */
  lemma {:induction false} IgnoredProfileNeutral(before: seq<ProfileRef>, p: ProfileRef, after: seq<ProfileRef>, context: string, loadable: set<(string, string)>, init: bool)
    requires Ignored(p.name)
    ensures Flag(before + [p] + after, context, loadable, init) == Flag(before + after, context, loadable, init)
    decreases |after|
  {
    if after == [] {
      var whole := before + [p] + after;
      assert whole == before + [p] && whole[|whole| - 1] == p;
      assert whole[..|whole| - 1] == before;
      assert before + after == before;
    } else {
      var last := after[|after| - 1];
      var front := after[..|after| - 1];
      assert (before + [p] + after)[..|before + [p] + after| - 1] == before + [p] + front;
      assert (before + after)[..|before + after| - 1] == before + front;
      IgnoredProfileNeutral(before, p, front, context, loadable, init);
    }
  }
}
