/** The rule patterns of the update script and the blocking-rule classifier that the six
    format emitters share: a line `||<domain>^` whose domain carries no path, separator,
    modifier or wildcard. */
module Classifier {
  import opened Text

  datatype Option<T> = None | Some(value: T)

  /** The text `prefix + middle + "^"`, the shape of every rule pattern in the script. */
  function RuleText(prefix: string, middle: string): string
  {
    prefix + middle + "^"
  }

  predicate Avoids(s: string, excluded: set<char>)
  {
    forall i :: 0 <= i < |s| ==> s[i] !in excluded
  }

  /** Whether `line` matches the anchored regular expression `^P[^X]{n,}\^$`, where P is
      the literal `prefix`, X the `excluded` characters and n is `minMiddle`. With X
      excluding `^` the middle stops before the last caret; without it the greedy class
      backs off one character, so in both cases the last character is the caret. */
  predicate MatchesRule(line: string, prefix: string, excluded: set<char>, minMiddle: nat)
  {
    && |prefix| + minMiddle + 1 <= |line|
    && StartsWith(line, prefix)
    && line[|line| - 1] == '^'
    && forall i :: |prefix| <= i < |line| - 1 ==> line[i] !in excluded
  }

  /** A matching line is the prefix, a middle of allowed characters, and the caret. */
  lemma MatchDecomposes(line: string, prefix: string, excluded: set<char>, minMiddle: nat)
    requires MatchesRule(line, prefix, excluded, minMiddle)
    ensures var middle := line[|prefix|..|line| - 1];
      line == RuleText(prefix, middle) && |middle| >= minMiddle && Avoids(middle, excluded)
  {
    var middle := line[|prefix|..|line| - 1];
    assert line == line[..|prefix|] + middle + [line[|line| - 1]];
  }

  /** A text of the rule shape matches exactly when its middle is long enough and avoids
      the excluded characters: together with MatchDecomposes this is the pattern's language. */
  lemma RuleTextMatches(prefix: string, middle: string, excluded: set<char>, minMiddle: nat)
    ensures MatchesRule(RuleText(prefix, middle), prefix, excluded, minMiddle)
        <==> |middle| >= minMiddle && Avoids(middle, excluded)
  {
    var line := RuleText(prefix, middle);
    assert line[..|prefix|] == prefix;
    assert forall i :: |prefix| <= i < |line| - 1 ==> line[i] == middle[i - |prefix|];
    if |middle| >= minMiddle && Avoids(middle, excluded) {
      assert MatchesRule(line, prefix, excluded, minMiddle);
    }
    if MatchesRule(line, prefix, excluded, minMiddle) {
      assert forall i :: 0 <= i < |middle| ==> middle[i] == line[i + |prefix|];
    }
  }

  /** `/^\|\|([^\/\^$]+)\^$/`, the blocking-rule test of every emitter. */
  predicate IsBlockingRuleShape(line: string)
  {
    MatchesRule(line, "||", {'/', '^', '$'}, 1)
  }

  /** `s.replace(/^p/, '')` for a literal `p`: the rest after `p` when `s` starts with it,
      otherwise `s` unchanged. */
  function RemovePrefix(s: string, p: string): string
  {
    if StartsWith(s, p) then s[|p|..] else s
  }

  /** `s.replace(/q$/, '')` for a literal `q`: the text before `q` when `s` ends with it,
      otherwise `s` unchanged. */
  function RemoveSuffix(s: string, q: string): string
  {
    if |q| <= |s| && s[|s| - |q|..] == q then s[..|s| - |q|] else s
  }

  /** Removing a leading `p` leaves the rest after it, and `p` put back in front restores
      the text; a text not starting with `p` is left as it is. */
  lemma RemovePrefixSpec(s: string, p: string)
    ensures StartsWith(s, p) ==> p + RemovePrefix(s, p) == s
    ensures !StartsWith(s, p) ==> RemovePrefix(s, p) == s
  {
    if StartsWith(s, p) {
      assert s == s[..|p|] + s[|p|..];
    }
  }

  /** Removing a trailing `q` leaves the text before it, and `q` put back at the end restores
      the text; a text not ending with `q` is left as it is. */
  lemma RemoveSuffixSpec(s: string, q: string)
    ensures |q| <= |s| && s[|s| - |q|..] == q ==> RemoveSuffix(s, q) + q == s
    ensures !(|q| <= |s| && s[|s| - |q|..] == q) ==> RemoveSuffix(s, q) == s
  {
    if |q| <= |s| && s[|s| - |q|..] == q {
      assert s == s[..|s| - |q|] + s[|s| - |q|..];
    }
  }

  /** A domain the emitters accept: non-empty, and free of `/`, `^`, `$` and `*`. */
  predicate IsPlainDomain(d: string)
  {
    d != [] && forall i :: 0 <= i < |d| ==> d[i] !in {'/', '^', '$', '*'}
  }

  /** The domain of a blocking rule, or None for any other line: the pattern test, the
      two `replace` calls and the `domain && !includes('*') && !includes('$')` guard. */
  function ParseBlocking(line: string): (r: Option<string>)
    ensures r.Some? ==> line == RuleText("||", r.value) && IsPlainDomain(r.value)
  {
    if IsBlockingRuleShape(line) then
      var domain := RemoveSuffix(RemovePrefix(line, "||"), "^");
      assert domain == line[2..|line| - 1];
      MatchDecomposes(line, "||", {'/', '^', '$'}, 1);
      if domain != [] && '*' !in domain && '$' !in domain then Some(domain) else None
    else None
  }

  /** The classifier accepts a line exactly when it is `||`, a plain domain and `^`, and
      then returns exactly the text between the two. */
  lemma {:induction false} ParseBlockingExact(line: string, d: string)
    ensures ParseBlocking(line) == Some(d) <==> line == RuleText("||", d) && IsPlainDomain(d)
  {
    if line == RuleText("||", d) && IsPlainDomain(d) {
      RuleTextMatches("||", d, {'/', '^', '$'}, 1);
      assert line[..2] == "||" && line[2..|line| - 1] == d;
      assert forall i :: 0 <= i < |d| ==> d[i] != '*';
    }
  }

  /** A plain domain rule is accepted and yields its domain. */
  lemma PlainRuleAccepted()
    ensures ParseBlocking("||ads.test^") == Some("ads.test")
  {
    assert "||ads.test^" == RuleText("||", "ads.test");
    ParseBlockingExact("||ads.test^", "ads.test");
  }

  /** A wildcard in the domain is rejected. */
  lemma WildcardRuleRejected()
    ensures ParseBlocking("||ads.*.com^") == None
  {
    var w := "||ads.*.com^";
    assert RemoveSuffix(RemovePrefix(w, "||"), "^") == "ads.*.com";
    assert "ads.*.com"[4] == '*';
  }

  /** A rule with a modifier after the caret is rejected. */
  lemma ModifierRuleRejected()
    ensures ParseBlocking("||ads.example.com^$third-party") == None
  {
    var m := "||ads.example.com^$third-party";
    assert m[|m| - 1] != '^';
  }
}
