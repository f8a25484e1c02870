/** Whole-name shell wildcard matching, case-insensitive: `*` matches any
    run of characters, `?` any single character, every other character
    itself up to case. */
module Glob {
  import opened Names

  predicate IsWildcard(c: char)
  {
    c == '*' || c == '?'
  }

  /** Whether `pattern` matches the whole of `name`.  A lone `*` matches
      every name, the empty one included. */
  function Matches(pattern: string, name: string): (b: bool)
    ensures pattern == "*" ==> b
    decreases |pattern| + |name|
  {
    if pattern == [] then name == []
    else if pattern[0] == '*' then
      Matches(pattern[1..], name) || (name != [] && Matches(pattern, name[1..]))
    else
      name != [] && (pattern[0] == '?' || Fold(pattern[0]) == Fold(name[0]))
      && Matches(pattern[1..], name[1..])
  }

  /** A pattern without wildcards matches exactly the names equal to it up to case. */
  lemma {:induction false} LiteralMatches(pattern: string, name: string)
    requires forall i :: 0 <= i < |pattern| ==> !IsWildcard(pattern[i])
    ensures Matches(pattern, name) <==> CompareCI(pattern, name) == 0
  {
    CompareCIZero(pattern, name);
    if pattern != [] && name != [] {
      LiteralMatches(pattern[1..], name[1..]);
      CompareCIZero(pattern[1..], name[1..]);
      if Matches(pattern, name) {
        forall i | 0 <= i < |pattern| ensures Fold(pattern[i]) == Fold(name[i]) {
          if i > 0 { assert pattern[1..][i - 1] == pattern[i]; }
        }
      }
    }
  }

  /** `*` followed by a literal suffix matches exactly the names that end in
      that suffix up to case: the shape of the usual `*.ext` filter. */
  lemma {:induction false} StarSuffixMatches(suffix: string, name: string)
    requires forall i :: 0 <= i < |suffix| ==> !IsWildcard(suffix[i])
    ensures Matches("*" + suffix, name)
        <==> |suffix| <= |name| && CompareCI(suffix, name[|name| - |suffix|..]) == 0
  {
    var p := "*" + suffix;
    assert Matches(p, name) == (Matches(suffix, name) || (name != [] && Matches(p, name[1..]))) by {
      assert p[0] == '*' && p[1..] == suffix;
    }
    if |suffix| > |name| {
      LiteralMatches(suffix, name);
      CompareCIZero(suffix, name);
      if name != [] {
        StarSuffixMatches(suffix, name[1..]);
      }
    } else {
      var tail := name[|name| - |suffix|..];
      assert Matches(suffix, name) <==> |suffix| == |name| && CompareCI(suffix, tail) == 0 by {
        LiteralMatches(suffix, name);
        CompareCIZero(suffix, name);
        if |suffix| == |name| {
          assert tail == name;
        }
      }
      assert (name != [] && Matches(p, name[1..])) <==> |suffix| < |name| && CompareCI(suffix, tail) == 0 by {
        if name != [] {
          StarSuffixMatches(suffix, name[1..]);
          if |suffix| <= |name| - 1 {
            assert name[1..][|name| - 1 - |suffix|..] == tail;
          }
        }
      }
    }
  }
}
