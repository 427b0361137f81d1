/** The DNS-compatible list (`generateDNSAdGuardList`): the browser list split into lines,
    filtered down to comments, blank lines, plain `||…^` block rules and `@@||…^` allow
    rules, and joined again. The filter only selects lines; it rewrites none of them. */
module DnsFilter {
  import opened Text
  import opened Classifier
  import opened Emitters

  /** Comments and metadata: a line starting with `!` or `#`, or blank after `trim()`. */
  predicate IsCommentOrBlank(line: string)
  {
    StartsWith(line, "!") || StartsWith(line, "#") || Trim(line) == []
  }

  /** `/^\|\|[^$]*\^$/`: a block rule with no modifier. Unlike the emitters' classifier the
      middle may be empty and may hold `/`, `^` and `*`. */
  predicate IsDnsBlockRule(line: string)
  {
    MatchesRule(line, "||", {'$'}, 0)
  }

  /** `/^@@\|\|[^$]*\^$/`: an allow (exception) rule with no modifier. */
  predicate IsDnsAllowRule(line: string)
  {
    MatchesRule(line, "@@||", {'$'}, 0)
  }

  /** The filter callback: keep comments, blank lines and the two rule shapes, drop the rest. */
  predicate IsDnsCompatible(line: string)
  {
    IsCommentOrBlank(line) || IsDnsBlockRule(line) || IsDnsAllowRule(line)
  }

  /** `lines.filter(…)` with the callback above. */
  function FilterDns(lines: seq<string>): (kept: seq<string>)
    ensures |kept| <= |lines|
    ensures forall l :: l in kept ==> IsDnsCompatible(l) && l in lines
  {
    if lines == [] then []
    else
      var last := lines[|lines| - 1];
      FilterDns(lines[..|lines| - 1]) + (if IsDnsCompatible(last) then [last] else [])
  }

  /** The text written to filters/adguardDns.txt for a browser list `content`. Splitting it
      again gives back exactly the kept lines; when no line is kept the file is empty. */
  function GenerateDnsList(content: string): (dns: string)
    ensures var kept := FilterDns(Split(content));
      && (kept == [] ==> dns == [])
      && (kept != [] ==> Split(dns) == kept)
  {
    var lines := Split(content);
    var kept := FilterDns(lines);
    if kept == [] then Join(kept)
    else
      assert NoNewlines(kept) by {
        assert forall i :: 0 <= i < |kept| ==> kept[i] in lines;
      }
      SplitJoin(kept);
      Join(kept)
  }

  /** `xs` is `ys` with some elements removed and the rest kept in order. */
  predicate IsSubsequence<T(==)>(xs: seq<T>, ys: seq<T>)
    decreases |ys|
  {
    || xs == []
    || (&& ys != []
        && (|| (xs[|xs| - 1] == ys[|ys| - 1] && IsSubsequence(xs[..|xs| - 1], ys[..|ys| - 1]))
            || IsSubsequence(xs, ys[..|ys| - 1])))
  }

  /** The filter keeps lines in their input order and never duplicates or invents one. */
  lemma {:induction false} FilterIsSubsequence(lines: seq<string>)
    ensures IsSubsequence(FilterDns(lines), lines)
  {
    if lines != [] {
      var init, last := lines[..|lines| - 1], lines[|lines| - 1];
      FilterIsSubsequence(init);
      if IsDnsCompatible(last) {
        var kept := FilterDns(init) + [last];
        assert kept[..|kept| - 1] == FilterDns(init) && kept[|kept| - 1] == last;
      } else {
        assert FilterDns(lines) == FilterDns(init) + [] == FilterDns(init);
        assert IsSubsequence(FilterDns(init), lines);
      }
    }
  }

  /** Each line is kept exactly as often as it occurs when it is DNS-compatible, and not at
      all otherwise: the filter drops nothing it should keep. */
  lemma {:induction false} FilterMultiplicity(lines: seq<string>, l: string)
    ensures multiset(FilterDns(lines))[l] == if IsDnsCompatible(l) then multiset(lines)[l] else 0
  {
    if lines != [] {
      var init, last := lines[..|lines| - 1], lines[|lines| - 1];
      FilterMultiplicity(init, l);
      assert lines == init + [last];
      assert multiset(lines) == multiset(init) + multiset{last};
    }
  }

  /** A DNS-compatible line of the input is in the output. */
  lemma KeptWhenCompatible(lines: seq<string>, l: string)
    requires l in lines && IsDnsCompatible(l)
    ensures l in FilterDns(lines)
  {
    FilterMultiplicity(lines, l);
    assert multiset(lines)[l] > 0;
  }

  /** Filtering the filter's output changes nothing. */
  lemma {:induction false} FilterIdempotent(lines: seq<string>)
    ensures FilterDns(FilterDns(lines)) == FilterDns(lines)
  {
    if lines != [] {
      var init, last := lines[..|lines| - 1], lines[|lines| - 1];
      FilterIdempotent(init);
      if IsDnsCompatible(last) {
        var kept := FilterDns(init) + [last];
        assert kept[..|kept| - 1] == FilterDns(init) && kept[|kept| - 1] == last;
        assert FilterDns(kept) == FilterDns(FilterDns(init)) + [last];
      } else {
        assert FilterDns(lines) == FilterDns(init) + [] == FilterDns(init);
      }
    }
  }

  /** Generating the DNS list from an already generated DNS list gives it back unchanged. */
  lemma GenerateDnsListIdempotent(content: string)
    ensures GenerateDnsList(GenerateDnsList(content)) == GenerateDnsList(content)
  {
    var kept := FilterDns(Split(content));
    if kept == [] {
      assert Trim([]) == [];
      assert FilterDns([[]]) == FilterDns([]) + [[]];
    } else {
      FilterIdempotent(Split(content));
    }
  }

  /** Every line the emitters' classifier accepts is kept for DNS: `[^\/\^$]+` is a subset
      of `[^$]*`. */
  lemma ClassifiedRuleIsDnsCompatible(line: string)
    requires ParseBlocking(line).Some?
    ensures IsDnsCompatible(line)
  {
    var d := ParseBlocking(line).value;
    RuleTextMatches("||", d, {'$'}, 0);
    assert Avoids(d, {'$'});
  }

  /** The DNS filter drops only lines that carry no domain, so the emitters see the same
      domains in the DNS list as in the browser list. */
  lemma {:induction false} FilterKeepsDomains(lines: seq<string>)
    ensures Domains(FilterDns(lines)) == Domains(lines)
  {
    if lines != [] {
      var init, last := lines[..|lines| - 1], lines[|lines| - 1];
      FilterKeepsDomains(init);
      DomainsUnfold(lines);
      if IsDnsCompatible(last) {
        DomainsAppend(FilterDns(init), [last]);
        DomainsSingle(last);
      } else {
        assert FilterDns(lines) == FilterDns(init) + [] == FilterDns(init);
        if ParseBlocking(last).Some? {
          ClassifiedRuleIsDnsCompatible(last);
        }
        assert LineDomain(last) == [];
        assert Domains(lines) == Domains(init) + [] == Domains(init);
      }
    }
  }

  /** Every domain the hosts, dnsmasq, unbound, named, Privoxy and Shadowrocket outputs get
      from a browser list survives as a `||d^` line of the DNS list made from it. */
  lemma EmittedDomainSurvives(content: string, d: string)
    requires d in Domains(Split(content))
    ensures RuleText("||", d) in Split(GenerateDnsList(content))
  {
    var lines := Split(content);
    var line := RuleText("||", d);
    DomainsMembership(lines, d);
    ParseBlockingExact(line, d);
    ClassifiedRuleIsDnsCompatible(line);
    KeptWhenCompatible(lines, line);
  }

  /** The DNS filter is looser than the classifier: of the `||…^` lines it keeps, the
      emitters take exactly those whose middle is a plain domain, so an empty middle or one
      holding `/`, `^` or `*` is kept here and emits nothing there. */
  lemma DnsBlockRuleVersusClassifier(line: string)
    requires IsDnsBlockRule(line)
    ensures ParseBlocking(line).Some? <==> IsPlainDomain(line[2..|line| - 1])
  {
    var middle := line[2..|line| - 1];
    MatchDecomposes(line, "||", {'$'}, 0);
    ParseBlockingExact(line, middle);
    if ParseBlocking(line).Some? {
      var d := ParseBlocking(line).value;
      var text := RuleText("||", d);
      assert text[2..|text| - 1] == d;
    }
  }
}
