/**
 * Shell-style name patterns, the part of `fnmatch.fnmatch` the
 * exclusion lists use: `*` matches any run of characters (also an empty
 * one, a leading dot, a newline), `?` matches exactly one character, every
 * other character matches only itself, and the whole name must match.
 */
module Glob {

  function Matches(name: string, pattern: string): bool
    decreases |name| + |pattern|
  {
    if |pattern| == 0 then |name| == 0
    else if pattern[0] == '*' then
      Matches(name, pattern[1..]) || (|name| > 0 && Matches(name[1..], pattern))
    else
      |name| > 0 && (pattern[0] == '?' || pattern[0] == name[0]) && Matches(name[1..], pattern[1..])
  }

  /** `any(fnmatch.fnmatch(name, p) for p in patterns)`. */
  function AnyMatch(name: string, patterns: seq<string>): (r: bool)
    ensures r <==> exists k :: 0 <= k < |patterns| && Matches(name, patterns[k])
  {
    if |patterns| == 0 then false
    else Matches(name, patterns[0]) || AnyMatch(name, patterns[1..])
  }

  predicate NoWildcards(p: string)
  {
    forall k :: 0 <= k < |p| ==> p[k] != '*' && p[k] != '?'
  }

  /** A pattern without wildcards, such as `.git`, matches exactly the name it spells. */
  lemma {:induction false} LiteralPattern(name: string, p: string)
    requires NoWildcards(p)
    ensures Matches(name, p) <==> name == p
    decreases |p|
  {
    if |p| > 0 && |name| > 0 {
      LiteralPattern(name[1..], p[1..]);
      assert name == [name[0]] + name[1..] && p == [p[0]] + p[1..];
    }
  }

  /** `*` followed by a literal, such as `*.log`, matches exactly the names ending in that literal. */
  lemma {:induction false} StarSuffixPattern(name: string, suffix: string)
    requires NoWildcards(suffix)
    ensures Matches(name, "*" + suffix) <==> |suffix| <= |name| && name[|name| - |suffix|..] == suffix
    decreases |name|
  {
    var p := "*" + suffix;
    assert p[1..] == suffix;
    LiteralPattern(name, suffix);
    if |name| > 0 {
      StarSuffixPattern(name[1..], suffix);
      if |suffix| <= |name| - 1 {
        assert name[1..][|name[1..]| - |suffix|..] == name[|name| - |suffix|..];
      }
    }
  }

  /** `*` alone matches every name. */
  lemma {:induction false} StarMatchesAll(name: string)
    ensures Matches(name, "*")
    decreases |name|
  {
    if |name| > 0 {
      StarMatchesAll(name[1..]);
    }
  }

  /** `?` matches exactly the one-character names. */
  lemma QuestionMatchesOneChar(name: string)
    ensures Matches(name, "?") <==> |name| == 1
  {
    if |name| > 0 {
      assert "?"[1..] == "";
    }
  }
}
